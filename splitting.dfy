/** Rust's `str::split` at a character class, `split_whitespace`, `trim` and ASCII `to_lowercase`. */
module Splitting {
  import opened Text

  predicate NoneIn(s: string, isDelim: char -> bool) {
    forall i :: 0 <= i < |s| ==> !isDelim(s[i])
  }

  /** The characters of `s` that are delimiters, in order. */
  function Delimiters(s: string, isDelim: char -> bool): string {
    if s == [] then [] else (if isDelim(s[0]) then [s[0]] else []) + Delimiters(s[1..], isDelim)
  }

  /**
   * `s.split(isDelim)`: the pieces between delimiter characters. Every delimiter
   * ends a piece, so adjacent delimiters produce empty pieces.
   */
  function Split(s: string, isDelim: char -> bool): (r: seq<string>)
    ensures |r| == |Delimiters(s, isDelim)| + 1
    ensures forall i :: 0 <= i < |r| ==> NoneIn(r[i], isDelim)
  {
    if s == [] then [""]
    else
      var tail := Split(s[1..], isDelim);
      if isDelim(s[0]) then [""] + tail
      else
        var r := [[s[0]] + tail[0]] + tail[1..];
        assert NoneIn(r[0], isDelim) by {
          forall j | 0 <= j < |r[0]| ensures !isDelim(r[0][j]) {
            if j > 0 { assert r[0][j] == tail[0][j - 1]; }
          }
        }
        assert forall i :: 1 <= i < |r| ==> r[i] == tail[i];
        r
  }

  /** Puts the pieces back together, the i-th separator between piece i and piece i + 1. */
  function Interleave(pieces: seq<string>, seps: string): string
    requires |pieces| == |seps| + 1
  {
    if seps == [] then pieces[0] else pieces[0] + [seps[0]] + Interleave(pieces[1..], seps[1..])
  }

  /** A delimiter in front: an empty first piece and the delimiter, then the rest. */
  lemma InterleaveDelim(c: char, pieces: seq<string>, seps: string)
    requires |pieces| == |seps| + 1
    ensures Interleave([""] + pieces, [c] + seps) == [c] + Interleave(pieces, seps)
  {
    assert ([""] + pieces)[1..] == pieces;
    assert ([c] + seps)[1..] == seps;
  }

  /** A character in front of the first piece. */
  lemma InterleaveFirst(c: char, pieces: seq<string>, seps: string)
    requires |pieces| == |seps| + 1
    ensures Interleave([[c] + pieces[0]] + pieces[1..], seps) == [c] + Interleave(pieces, seps)
  {
    var r := [[c] + pieces[0]] + pieces[1..];
    if seps != [] {
      assert r[1..] == pieces[1..];
      var rest := Interleave(pieces[1..], seps[1..]);
      assert ([c] + pieces[0]) + [seps[0]] + rest == [c] + (pieces[0] + [seps[0]] + rest);
    }
  }

  /** Splitting loses nothing: the pieces and the delimiters rebuild the text. */
  lemma {:induction false} SplitRebuilds(s: string, isDelim: char -> bool)
    ensures Interleave(Split(s, isDelim), Delimiters(s, isDelim)) == s
  {
    if s != [] {
      var tail := Split(s[1..], isDelim);
      var ds := Delimiters(s[1..], isDelim);
      SplitRebuilds(s[1..], isDelim);
      if isDelim(s[0]) {
        assert Split(s, isDelim) == [""] + tail;
        assert Delimiters(s, isDelim) == [s[0]] + ds;
        InterleaveDelim(s[0], tail, ds);
      } else {
        assert Split(s, isDelim) == [[s[0]] + tail[0]] + tail[1..];
        assert Delimiters(s, isDelim) == ds;
        InterleaveFirst(s[0], tail, ds);
      }
      assert [s[0]] + s[1..] == s;
    }
  }

  /** Joins non-empty `xs` with `sep` between neighbours. */
  function Join(xs: seq<string>, sep: char): string
    requires |xs| >= 1
  {
    if |xs| == 1 then xs[0] else xs[0] + [sep] + Join(xs[1..], sep)
  }

  /** The first piece, a separator, then the rest joined. */
  lemma JoinCons(x: string, xs: seq<string>, sep: char)
    requires |xs| >= 1
    ensures Join([x] + xs, sep) == x + [sep] + Join(xs, sep)
  {
    assert ([x] + xs)[1..] == xs;
  }

  lemma {:induction false} SplitPlain(a: string, isDelim: char -> bool)
    requires NoneIn(a, isDelim)
    ensures Split(a, isDelim) == [a]
  {
    if a != [] {
      SplitPlain(a[1..], isDelim);
      assert [a[0]] + a[1..] == a;
    }
  }

  lemma {:induction false} SplitAfterPiece(a: string, sep: char, b: string, isDelim: char -> bool)
    requires NoneIn(a, isDelim) && isDelim(sep)
    ensures Split(a + [sep] + b, isDelim) == [a] + Split(b, isDelim)
  {
    var s := a + [sep] + b;
    if a == [] {
      assert s[1..] == b;
    } else {
      assert s[1..] == a[1..] + [sep] + b;
      SplitAfterPiece(a[1..], sep, b, isDelim);
      assert [a[0]] + a[1..] == a;
    }
  }

  /** Splitting at the separator undoes Join when no piece contains a separator. */
  lemma {:induction false} SplitJoin(xs: seq<string>, sep: char, isDelim: char -> bool)
    requires |xs| >= 1 && isDelim(sep)
    requires forall i :: 0 <= i < |xs| ==> NoneIn(xs[i], isDelim)
    ensures Split(Join(xs, sep), isDelim) == xs
  {
    if |xs| == 1 {
      SplitPlain(xs[0], isDelim);
    } else {
      SplitJoin(xs[1..], sep, isDelim);
      SplitAfterPiece(xs[0], sep, Join(xs[1..], sep), isDelim);
    }
  }

  function NonEmpty(xs: seq<string>): (r: seq<string>)
    ensures forall i :: 0 <= i < |r| ==> r[i] != [] && r[i] in xs
  {
    if xs == [] then []
    else (if xs[0] == [] then [] else [xs[0]]) + NonEmpty(xs[1..])
  }

  /** `s.split_whitespace()`: the split at whitespace with the empty pieces dropped. */
  function Words(s: string): (r: seq<string>)
    ensures forall i :: 0 <= i < |r| ==> r[i] != [] && NoneIn(r[i], IsWhitespace)
  {
    NonEmpty(Split(s, IsWhitespace))
  }

  lemma {:induction false} NonEmptyKeeps(xs: seq<string>, w: string)
    requires w != []
    ensures w in NonEmpty(xs) <==> w in xs
  {
    if xs != [] {
      NonEmptyKeeps(xs[1..], w);
      assert xs == [xs[0]] + xs[1..];
    }
  }

  /** The words are exactly the non-empty whitespace-free pieces of the text. */
  lemma WordsMembers(s: string, w: string)
    ensures w in Words(s) <==> w != [] && w in Split(s, IsWhitespace)
  {
    if w != [] { NonEmptyKeeps(Split(s, IsWhitespace), w); }
  }

  /** A text of whitespace only has no words. */
  lemma {:induction false} WordsBlank(s: string)
    requires forall i :: 0 <= i < |s| ==> IsWhitespace(s[i])
    ensures Words(s) == []
  {
    var pieces := Split(s, IsWhitespace);
    if s != [] {
      WordsBlank(s[1..]);
      assert pieces == [""] + Split(s[1..], IsWhitespace);
      assert pieces[1..] == Split(s[1..], IsWhitespace);
    } else {
      assert pieces == [""];
      assert NonEmpty(pieces[1..]) == [];
    }
  }

  lemma {:induction false} NonEmptyAll(xs: seq<string>)
    requires forall i :: 0 <= i < |xs| ==> xs[i] != []
    ensures NonEmpty(xs) == xs
  {
    if xs != [] {
      NonEmptyAll(xs[1..]);
    }
  }

  /** A word without whitespace, as `split_whitespace` leaves it. */
  predicate IsWord(w: string) { w != [] && NoneIn(w, IsWhitespace) }

  /** Words written with single spaces between them split back into the same words. */
  lemma WordsOfSpaced(xs: seq<string>)
    requires |xs| >= 1
    requires forall i :: 0 <= i < |xs| ==> IsWord(xs[i])
    ensures Words(Join(xs, ' ')) == xs
  {
    SplitJoin(xs, ' ', IsWhitespace);
    NonEmptyAll(xs);
  }

  function TrimStart(s: string): (r: string)
    ensures |r| <= |s| && r == s[|s| - |r|..]
    ensures r != [] ==> !IsWhitespace(r[0])
    ensures forall i :: 0 <= i < |s| - |r| ==> IsWhitespace(s[i])
  {
    if s != [] && IsWhitespace(s[0]) then TrimStart(s[1..]) else s
  }

  function TrimEnd(s: string): (r: string)
    ensures |r| <= |s| && r == s[..|r|]
    ensures r != [] ==> !IsWhitespace(r[|r| - 1])
    ensures forall i :: |r| <= i < |s| ==> IsWhitespace(s[i])
  {
    if s != [] && IsWhitespace(s[|s| - 1]) then TrimEnd(s[..|s| - 1]) else s
  }

  /** `s.trim()`: `s` without leading and trailing whitespace. */
  function Trim(s: string): (r: string)
    ensures r == [] || (!IsWhitespace(r[0]) && !IsWhitespace(r[|r| - 1]))
    ensures |r| <= |TrimStart(s)| && r == TrimStart(s)[..|r|]
    ensures forall i :: |r| <= i < |TrimStart(s)| ==> IsWhitespace(TrimStart(s)[i])
  {
    TrimEnd(TrimStart(s))
  }

  /** Leading whitespace in front of text that starts otherwise is exactly what `trim_start` removes. */
  lemma {:induction false} TrimStartOver(sp: string, u: string)
    requires forall i :: 0 <= i < |sp| ==> IsWhitespace(sp[i])
    requires u != [] && !IsWhitespace(u[0])
    ensures TrimStart(sp + u) == u
  {
    if sp != [] {
      assert (sp + u)[1..] == sp[1..] + u;
      TrimStartOver(sp[1..], u);
    } else {
      assert sp + u == u;
    }
  }

  /** Trailing whitespace after text that ends otherwise is exactly what `trim_end` removes. */
  lemma {:induction false} TrimEndOver(u: string, sp: string)
    requires u != [] && !IsWhitespace(u[|u| - 1])
    requires forall i :: 0 <= i < |sp| ==> IsWhitespace(sp[i])
    ensures TrimEnd(u + sp) == u
  {
    if sp != [] {
      assert (u + sp)[..|u + sp| - 1] == u + sp[..|sp| - 1];
      TrimEndOver(u, sp[..|sp| - 1]);
    } else {
      assert u + sp == u;
    }
  }

  /** Trimming text without surrounding whitespace changes nothing. */
  lemma TrimUntrimmed(s: string)
    requires s == [] || (!IsWhitespace(s[0]) && !IsWhitespace(s[|s| - 1]))
    ensures Trim(s) == s
  {
  }

  function Lower(c: char): char {
    if 'A' <= c <= 'Z' then (c as int + 32) as char else c
  }

  /** `s.to_lowercase()` on ASCII letters. */
  function ToLowercase(s: string): (r: string)
    ensures |r| == |s|
    ensures forall i :: 0 <= i < |s| ==> r[i] == Lower(s[i])
  {
    if s == [] then [] else [Lower(s[0])] + ToLowercase(s[1..])
  }
}
