/**
 * `pair(s, ch)` from the lifetimes lesson: the text before and after the
 * first `ch`, both borrowed from `s`, or all of `s` and the empty text when
 * `ch` does not occur.
 */
module SplitPair {
  import opened Text

  /** `s.find(ch)`: the position of the first `ch`, if there is one. */
  function Find(s: string, ch: char): (r: Option<nat>)
    ensures r.None? <==> ch !in s
    ensures r.Some? ==> r.value < |s| && s[r.value] == ch && ch !in s[..r.value]
  {
    if s == [] then None
    else if s[0] == ch then Some(0)
    else
      match Find(s[1..], ch)
      case None => None
      case Some(i) =>
        assert s[..i + 1] == [s[0]] + s[1..][..i];
        Some(i + 1)
  }

  /** `pair`: the slices on either side of the first `ch`, or `(s, "")`. */
  function Pair(s: string, ch: char): (r: (string, string))
    ensures ch in s ==> r.0 + [ch] + r.1 == s && ch !in r.0
    ensures ch !in s ==> r == (s, "")
  {
    match Find(s, ch)
    case Some(idx) =>
      assert s == s[..idx] + [ch] + s[idx + 1..];
      (s[..idx], s[idx + 1..])
    case None => (s, "")
  }

  /** Splitting at the first `ch` is the only split of this shape: the parts are determined by `s`. */
  lemma PairUnique(a: string, ch: char, b: string)
    requires ch !in a
    ensures Pair(a + [ch] + b, ch) == (a, b)
  {
    var s := a + [ch] + b;
    assert s[|a|] == ch;
    var idx := Find(s, ch).value;
    if idx < |a| {
      assert false;
    } else if idx > |a| {
      assert false;
    }
    assert s[..idx] == a;
    assert s[idx + 1..] == b;
  }

  /** `pair("hello:dolly", ':')`. */
  lemma HelloDolly()
    ensures Pair("hello:dolly", ':') == ("hello", "dolly")
  {
    assert "hello:dolly" == "hello" + [':'] + "dolly";
    assert ':' !in "hello";
    PairUnique("hello", ':', "dolly");
  }

  /** Without the delimiter the whole text is the first part. */
  lemma NoDelimiter()
    ensures Pair("hello", ':') == ("hello", "")
  {
    assert ':' !in "hello";
  }
}
