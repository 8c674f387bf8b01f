/** Types shared by the block-file store model: bytes, file options, errors. */
module BlockTypes {

  /** A byte of file content. */
  newtype byte = b: int | 0 <= b < 256

  function Min(a: int, b: int): int { if a <= b then a else b }
  function Max(a: int, b: int): int { if a >= b then a else b }

  /** The options a file is created with; they never change afterwards.
      `ijson` only affects how content is interpreted, not how it is stored. */
  datatype FileOpts = FileOpts(maxSize: int, circular: bool, ijson: bool)

  /** The zero value of the options record (`FileOptsType{}`). */
  const DefaultOpts: FileOpts := FileOpts(0, false, false)

  /** Options a store with part size `partSize` accepts: a circular file
      needs a maximum size that is a positive multiple of the part size, so
      that the ring has `maxSize / partSize` whole parts. */
  predicate ValidOpts(opts: FileOpts, partSize: int)
  {
    && partSize > 0
    && (opts.circular ==> opts.maxSize > 0 && opts.maxSize % partSize == 0)
  }

  /** The number of part slots in a circular file's ring. */
  function NumParts(opts: FileOpts, partSize: int): (n: int)
    requires ValidOpts(opts, partSize) && opts.circular
    ensures n > 0 && n * partSize == opts.maxSize
  {
    opts.maxSize / partSize
  }

  datatype StoreError = NotFound | AlreadyExists | InvalidArgument

  datatype Result<T> = Ok(value: T) | Err(error: StoreError)

  datatype Option<T> = None | Some(value: T)
}

/** Facts about integer division and remainder used by the proofs. */
module Arith {

  /** `q` is the quotient of `x` by `p` exactly when `x` lies in `q`'s
      block `[q*p, (q+1)*p)`. */
  lemma DivUnique(x: int, p: int, q: int)
    requires p > 0 && q * p <= x < q * p + p
    ensures x / p == q && x % p == x - q * p
  {
    var d := x / p;
    assert x == d * p + x % p && 0 <= x % p < p;
    if d < q {
      MulMono(d + 1, q, p);
      assert false;
    } else if d > q {
      MulMono(q + 1, d, p);
      assert false;
    }
  }

  lemma MulMono(a: int, b: int, p: int)
    requires a <= b && p > 0
    ensures a * p <= b * p
  {
    assert b * p - a * p == (b - a) * p;
  }

  /** A multiple of `p` lies at or below `x` exactly when its factor lies
      at or below `x / p`. */
  lemma MulLeIffLeDiv(u: int, p: int, x: int)
    requires p > 0
    ensures u * p <= x <==> u <= x / p
  {
    var d := x / p;
    assert x == d * p + x % p;
    if u <= d {
      assert u * p <= d * p;
    } else {
      assert (d + 1) * p <= u * p;
    }
  }

  /** Adding whole multiples of `n` does not change the remainder. */
  lemma ModAddMultiple(x: int, k: int, n: int)
    requires n > 0
    ensures (x + k * n) % n == x % n
  {
    var q := x / n;
    assert x == q * n + x % n;
    assert x + k * n == (q + k) * n + x % n;
    DivUnique(x + k * n, n, q + k);
  }

  /** Stepping back by one lowers a non-zero remainder by one. */
  lemma ModPred(a: int, n: int)
    requires n > 0 && a % n != 0
    ensures (a - 1) % n == a % n - 1
  {
    var q := a / n;
    assert a == q * n + a % n;
    DivUnique(a - 1, n, q);
  }

  /** Incrementing a remainder and reducing again equals reducing the successor. */
  lemma ModSucc(u: int, n: int)
    requires n > 0
    ensures (u % n + 1) % n == (u + 1) % n
  {
    var q := u / n;
    assert u == q * n + u % n;
    if u % n + 1 < n {
      DivUnique(u + 1, n, q);
      DivUnique(u % n + 1, n, 0);
    } else {
      DivUnique(u + 1, n, q + 1);
      DivUnique(u % n + 1, n, 1);
    }
  }

  /** For `0 <= j < n`, `n` divides `k - j` exactly when `j` is `k`'s remainder. */
  lemma ModZeroIff(k: int, j: int, n: int)
    requires n > 0 && 0 <= j < n
    ensures (k - j) % n == 0 <==> j == k % n
  {
    var q := k / n;
    assert k == q * n + k % n;
    if j == k % n {
      DivUnique(k - j, n, q);
    } else if j < k % n {
      DivUnique(k - j, n, q);
    } else {
      DivUnique(k - j, n, q - 1);
    }
  }

  /** Two different positions less than `n` apart never share a remainder
      modulo `n`: they fall into different slots of a ring of `n`. */
  lemma DistinctResidues(x: int, y: int, n: int)
    requires n > 0 && x != y && x - n < y < x + n
    ensures x % n != y % n
  {
    var qx, qy := x / n, y / n;
    assert x == qx * n + x % n && y == qy * n + y % n;
    if x % n == y % n {
      assert x - y == (qx - qy) * n;
      if qx < qy {
        MulMono(qx + 1, qy, n);
      } else if qx > qy {
        MulMono(qy + 1, qx, n);
      }
    }
  }
}
