/** Areas of a buffer: reading and replacing a run of consecutive elements. */
module Mem {
  import opened Bits

  /** The n elements at i. */
  function Get<T>(s: seq<T>, i: nat, n: nat): (x: seq<T>)
    requires i + n <= |s|
    ensures |x| == n
  {
    s[i..i + n]
  }

  /** The buffer with x written at i. */
  function Put<T>(s: seq<T>, i: nat, x: seq<T>): (t: seq<T>)
    requires i + |x| <= |s|
    ensures |t| == |s|
  {
    s[..i] + x + s[i + |x|..]
  }

  lemma PutIs<T>(s: seq<T>, t: seq<T>, i: nat, x: seq<T>)
    requires |t| == |s| && i + |x| <= |s|
    requires t[i..i + |x|] == x
    requires forall k | 0 <= k < |s| && !(i <= k < i + |x|) :: t[k] == s[k]
    ensures t == Put(s, i, x)
  {
    assert t == t[..i] + t[i..i + |x|] + t[i + |x|..];
  }

  lemma GetPut<T>(s: seq<T>, i: nat, x: seq<T>)
    requires i + |x| <= |s|
    ensures Get(Put(s, i, x), i, |x|) == x
  {
  }

  /** A write does not change an area apart from it. */
  lemma GetPutApart<T>(s: seq<T>, i: nat, x: seq<T>, j: nat, n: nat)
    requires i + |x| <= |s| && j + n <= |s|
    requires i + |x| <= j || j + n <= i
    ensures Get(Put(s, i, x), j, n) == Get(s, j, n)
  {
  }

  /** A second write to the same area hides the first. */
  lemma PutPut<T>(s: seq<T>, i: nat, x: seq<T>, y: seq<T>)
    requires i + |x| <= |s| && |x| == |y|
    ensures Put(Put(s, i, x), i, y) == Put(s, i, y)
  {
  }

  /** Writes to areas apart from each other commute. */
  lemma PutCommutes<T>(s: seq<T>, i: nat, x: seq<T>, j: nat, y: seq<T>)
    requires i + |x| <= |s| && j + |y| <= |s|
    requires i + |x| <= j || j + |y| <= i
    ensures Put(Put(s, i, x), j, y) == Put(Put(s, j, y), i, x)
  {
  }

  /** Two writes side by side are one write. */
  lemma PutJoin<T>(s: seq<T>, i: nat, x: seq<T>, y: seq<T>)
    requires i + |x| + |y| <= |s|
    ensures Put(Put(s, i, x), i + |x|, y) == Put(s, i, x + y)
  {
  }

  lemma PutAll<T>(s: seq<T>, x: seq<T>)
    requires |s| == |x|
    ensures Put(s, 0, x) == x
  {
  }

  /** The start of one buffer copied to the start of another. */
  lemma CopyStart<T>(s: seq<T>, x: seq<T>, n: nat)
    requires n <= |s| && n <= |x|
    ensures Put(s, 0, Get(x, 0, n))[..n] == x[..n]
  {
  }

  /** What precedes the end of a write. */
  lemma PutEnd<T>(s: seq<T>, i: nat, x: seq<T>)
    requires i + |x| <= |s|
    ensures Put(s, i, x)[..i + |x|] == s[..i] + x
  {
  }

  lemma PutNothing<T>(s: seq<T>, i: nat)
    requires i <= |s|
    ensures Put(s, i, []) == s
  {
  }

  lemma GetGet<T>(s: seq<T>, i: nat, n: nat, j: nat, m: nat)
    requires i + n <= |s| && j + m <= n
    ensures Get(Get(s, i, n), j, m) == Get(s, i + j, m)
  {
    var a, b := s[i..i + n][j..j + m], s[i + j..i + j + m];
    assert |a| == |b|;
    assert forall k | 0 <= k < m :: a[k] == s[i + j + k] == b[k];
  }

  ghost predicate RowsOf<T>(rows: seq<seq<T>>, c: nat) {
    forall i | 0 <= i < |rows| :: |rows[i]| == c
  }

  /** Row i of n rows of c elements ends where row i + 1 starts, inside the table. */
  lemma RowBound(i: nat, n: nat, c: nat)
    requires i < n
    ensures i * c + c == (i + 1) * c <= n * c
  {
    MulMonotone(i + 1, n, c);
  }

  /** A table with its first rows written, one after another. */
  ghost function PutRows<T>(s: seq<T>, rows: seq<seq<T>>, c: nat): (t: seq<T>)
    requires RowsOf(rows, c) && |rows| * c <= |s|
    ensures |t| == |s|
    decreases |rows|
  {
    if rows == [] then s
    else
      var n := |rows| - 1;
      RowBound(n, n + 1, c);
      Put(PutRows(s, rows[..n], c), n * c, rows[n])
  }

  lemma PutRowsStep<T>(s: seq<T>, rows: seq<seq<T>>, c: nat, x: seq<T>)
    requires RowsOf(rows, c) && (|rows| + 1) * c <= |s| && |x| == c
    ensures |rows| * c + c <= |s| && RowsOf(rows + [x], c)
    ensures PutRows(s, rows + [x], c) == Put(PutRows(s, rows, c), |rows| * c, x)
  {
    hide Put;
    RowBound(|rows|, |rows| + 1, c);
    assert (rows + [x])[..|rows|] == rows;
  }

  /** Every row written is read back. */
  lemma {:induction false} GetRow<T>(s: seq<T>, rows: seq<seq<T>>, c: nat, j: nat)
    requires RowsOf(rows, c) && |rows| * c <= |s| && j < |rows|
    ensures j * c + c <= |s| && Get(PutRows(s, rows, c), j * c, c) == rows[j]
    decreases |rows|
  {
    hide Put, Get;
    var n := |rows| - 1;
    RowBound(n, n + 1, c);
    RowBound(j, n + 1, c);
    var t := PutRows(s, rows[..n], c);
    if j == n {
      GetPut(t, n * c, rows[n]);
    } else {
      RowBound(j, n, c);
      GetPutApart(t, n * c, rows[n], j * c, c);
      GetRow(s, rows[..n], c, j);
    }
  }

  /** memcpy */
  method MemCpy<T>(dst: array<T>, d: nat, src: array<T>, s: nat, n: nat)
    requires d + n <= dst.Length && s + n <= src.Length
    requires dst == src ==> d + n <= s || s + n <= d
    modifies dst
    ensures dst[..] == Put(old(dst[..]), d, Get(old(src[..]), s, n))
  {
    ghost var b := Get(src[..], s, n);
    forall k | d <= k < d + n {
      dst[k] := src[s + k - d];
    }
    assert forall k | d <= k < d + n :: dst[k] == b[k - d];
    PutIs(old(dst[..]), dst[..], d, b);
  }

  /** Storing a string of elements. */
  method MemStore<T>(a: array<T>, i: nat, x: seq<T>)
    requires i + |x| <= a.Length
    modifies a
    ensures a[..] == Put(old(a[..]), i, x)
  {
    forall k | i <= k < i + |x| {
      a[k] := x[k - i];
    }
    PutIs(old(a[..]), a[..], i, x);
  }
}
