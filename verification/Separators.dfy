/** Texts and byte strings with a separator in them. */
module Separators {
  /** A part without the separator, the separator, and any rest: both can be read back. */
  lemma {:induction false} SplitAtFirst<T>(a: seq<T>, x: seq<T>, b: seq<T>, y: seq<T>, separator: T)
    requires separator !in a && separator !in b
    ensures a + ([separator] + x) == b + ([separator] + y) <==> a == b && x == y
    decreases |a|
  {
    var s, t := a + ([separator] + x), b + ([separator] + y);
    if a == [] || b == [] {
      if s == t {
        assert s[0] == t[0];
        assert a == [] && b == [];
        assert s[1..] == x && t[1..] == y;
      }
    } else {
      assert s[1..] == a[1..] + ([separator] + x) && t[1..] == b[1..] + ([separator] + y);
      SplitAtFirst(a[1..], x, b[1..], y, separator);
      assert s == [a[0]] + s[1..] && t == [b[0]] + t[1..];
      assert a == [a[0]] + a[1..] && b == [b[0]] + b[1..];
    }
  }
}
