/** Lexicographic comparison of byte strings, as Rust's `Ord` for `[u8]` defines it. */
module KeyOrder {
  import opened Entries

  datatype Ordering = Less | Equal | Greater

  /** Compare byte by byte; when one string is a prefix of the other, the shorter one is smaller. */
  function Cmp(a: Bytes, b: Bytes): Ordering
  {
    if |a| == 0 then (if |b| == 0 then Equal else Less)
    else if |b| == 0 then Greater
    else if a[0] < b[0] then Less
    else if a[0] > b[0] then Greater
    else Cmp(a[1..], b[1..])
  }

  /** Two keys compare `Equal` exactly when they are the same byte string. */
  lemma {:induction false} CmpEqual(a: Bytes, b: Bytes)
    ensures Cmp(a, b) == Equal <==> a == b
  {
    if |a| > 0 && |b| > 0 && a[0] == b[0] {
      CmpEqual(a[1..], b[1..]);
      assert a == [a[0]] + a[1..] && b == [b[0]] + b[1..];
    }
  }

  /** Swapping the arguments swaps `Less` and `Greater`. */
  lemma {:induction false} CmpFlip(a: Bytes, b: Bytes)
    ensures Cmp(a, b) == Less <==> Cmp(b, a) == Greater
  {
    if |a| > 0 && |b| > 0 && a[0] == b[0] {
      CmpFlip(a[1..], b[1..]);
    }
  }

  /** `Less` is transitive. */
  lemma {:induction false} CmpLessTrans(a: Bytes, b: Bytes, c: Bytes)
    requires Cmp(a, b) == Less && Cmp(b, c) == Less
    ensures Cmp(a, c) == Less
  {
    if |a| > 0 && |b| > 0 && |c| > 0 && a[0] == b[0] && b[0] == c[0] {
      CmpLessTrans(a[1..], b[1..], c[1..]);
    }
  }
}
