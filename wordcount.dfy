/**
 * Word frequencies, from the maps lesson: the text is split at every
 * non-alphabetic character, each piece is lowercased and counted in a map
 * through `entry(word).or_insert(0)`, the entries are collected into a vector,
 * sorted by descending count and the first twenty are reported.
 */
module WordCount {
  import opened Text
  import opened Splitting

  predicate NotAlphabetic(c: char) { !IsAlpha(c) }

  /** `text.split(|c| !c.is_alphabetic())`, each piece lowercased: the words counted. */
  function Pieces(text: string): (r: seq<string>)
    ensures |r| == |Delimiters(text, NotAlphabetic)| + 1
  {
    var ps := Split(text, NotAlphabetic);
    seq(|ps|, i requires 0 <= i < |ps| => ToLowercase(ps[i]))
  }

  /** The map after counting `words` one at a time, as the loop does. */
  function Tally(words: seq<string>): map<string, nat> {
    if words == [] then map[]
    else
      var m := Tally(words[..|words| - 1]);
      var w := words[|words| - 1];
      m[w := (if w in m then m[w] else 0) + 1]
  }

  /** Every word counted is in the map, nothing else is, and each count is the number of times the word occurs. */
  lemma {:induction false} TallyCounts(words: seq<string>)
    ensures Tally(words).Keys == set w | w in words
    ensures forall w :: w in Tally(words) ==> Tally(words)[w] == multiset(words)[w]
  {
    if words != [] {
      var init, w := words[..|words| - 1], words[|words| - 1];
      TallyCounts(init);
      assert words == init + [w];
      assert multiset(words) == multiset(init) + multiset{w};
      forall v | v in init ensures v in words { }
    }
  }

  /** A word that never occurs is absent, so `or_insert(0)` is what gives it its first count. */
  lemma TallyAbsent(words: seq<string>, w: string)
    requires w !in words
    ensures w !in Tally(words)
  {
    TallyCounts(words);
  }

  /** The counting loop: `*map.entry(word).or_insert(0) += 1` for each piece. */
  method CountWords(text: string) returns (counts: map<string, nat>)
    ensures counts == Tally(Pieces(text))
  {
    var words := Pieces(text);
    counts := map[];
    var i := 0;
    while i < |words|
      invariant 0 <= i <= |words|
      invariant counts == Tally(words[..i])
    {
      var word := words[i];
      var count := if word in counts then counts[word] else 0;
      counts := counts[word := count + 1];
      assert words[..i + 1][..i] == words[..i];
      i := i + 1;
    }
    assert words[..i] == words;
  }

  // ---------------------------------------------------------------------------
  // Most frequent first

  type Entry = (string, nat)

  /** `map.into_iter().collect()`: every entry of the map once, in some order. */
  method Entries(counts: map<string, nat>) returns (entries: array<Entry>)
    ensures fresh(entries)
    ensures multiset(entries[..]) == multiset(counts.Items)
  {
    entries := new Entry[|counts|](_ => ("", 0));
    var rest := counts;
    var i := 0;
    while rest != map[]
      invariant 0 <= i <= entries.Length && i + |rest| == |counts|
      invariant multiset(entries[..i]) + multiset(rest.Items) == multiset(counts.Items)
      decreases |rest|
    {
      var w :| w in rest;
      ItemsWithout(rest, w);
      entries[i] := (w, rest[w]);
      assert entries[..i + 1] == entries[..i] + [(w, rest[w])];
      rest := rest - {w};
      i := i + 1;
    }
    assert |rest.Items| == 0;
    assert entries[..i] == entries[..];
  }

  /** Taking one key out of a map takes exactly its entry out of the map's entries. */
  lemma ItemsWithout(m: map<string, nat>, w: string)
    requires w in m
    ensures multiset(m.Items) == multiset((m - {w}).Items) + multiset{(w, m[w])}
    ensures |m - {w}| == |m| - 1
  {
    var r := m - {w};
    forall e | e in m.Items ensures e in r.Items + {(w, m[w])} {
      assert e.0 in m && m[e.0] == e.1;
      if e.0 != w {
        assert e.0 in r && r[e.0] == e.1;
      }
    }
    forall e | e in r.Items ensures e in m.Items && e != (w, m[w]) {
      assert e.0 in r && r[e.0] == e.1;
    }
    assert (w, m[w]) in m.Items;
    assert m.Items == r.Items + {(w, m[w])};
    assert (w, m[w]) !in r.Items;
    assert m.Keys == (m - {w}).Keys + {w};
  }

  predicate Descending(s: seq<Entry>) {
    forall k, l :: 0 <= k < l < |s| ==> s[k].1 >= s[l].1
  }

  /** `entries.sort_by(|a, b| b.1.cmp(&a.1))`: in place, by descending count. */
  method SortByCount(a: array<Entry>)
    modifies a
    ensures Descending(a[..])
    ensures multiset(a[..]) == multiset(old(a[..]))
  {
    var i := 0;
    while i < a.Length
      invariant 0 <= i <= a.Length
      invariant Descending(a[..i])
      invariant multiset(a[..]) == multiset(old(a[..]))
    {
      SinkLeft(a, i);
      i := i + 1;
    }
    assert a[..i] == a[..];
  }

  /** While the entry at `j` moves left: everything else up to `i` is in order and the entries after `j` count less. */
  predicate Sinking(s: seq<Entry>, i: nat, j: nat)
    requires j <= i < |s|
  {
    (forall k, l :: 0 <= k < l <= i && k != j && l != j ==> s[k].1 >= s[l].1) &&
    (forall l :: j < l <= i ==> s[l].1 < s[j].1)
  }

  /** At the start the entry at `i` is the one moving, and the ones before it are in order. */
  lemma SinkStart(s: seq<Entry>, i: nat)
    requires i < |s| && Descending(s[..i])
    ensures Sinking(s, i, i)
  {
    forall k, l | 0 <= k < l < i ensures s[k].1 >= s[l].1 {
      assert s[..i][k] == s[k] && s[..i][l] == s[l];
    }
  }

  /** Swapping the moving entry with a neighbour that counts less keeps it sinking. */
  lemma SwapStep(s: seq<Entry>, i: nat, j: nat)
    requires 0 < j <= i < |s| && Sinking(s, i, j) && s[j - 1].1 < s[j].1
    ensures Sinking(s[j - 1 := s[j]][j := s[j - 1]], i, j - 1)
  {
  }

  /** Swapping two entries keeps the same entries. */
  lemma SwapSameEntries(s: seq<Entry>, x: nat, y: nat)
    requires x < y < |s|
    ensures multiset(s[x := s[y]][y := s[x]]) == multiset(s)
  {
    var t := s[x := s[y]][y := s[x]];
    assert s == s[..x] + [s[x]] + s[x + 1..y] + [s[y]] + s[y + 1..];
    assert t == s[..x] + [s[y]] + s[x + 1..y] + [s[x]] + s[y + 1..];
  }

  /** `a.swap(x, y)`. */
  method Swap(a: array<Entry>, x: nat, y: nat)
    requires x < y < a.Length
    modifies a
    ensures a[..] == old(a[..])[x := old(a[y])][y := old(a[x])]
    ensures multiset(a[..]) == multiset(old(a[..]))
  {
    ghost var before := a[..];
    a[x], a[y] := a[y], a[x];
    assert a[..] == before[x := before[y]][y := before[x]];
    SwapSameEntries(before, x, y);
  }

  /** Once the neighbour counts at least as much, the first `i + 1` entries are in order. */
  lemma SinkDone(s: seq<Entry>, i: nat, j: nat)
    requires j <= i < |s| && Sinking(s, i, j) && (j == 0 || s[j - 1].1 >= s[j].1)
    ensures Descending(s[..i + 1])
  {
    forall k, l | 0 <= k < l < i + 1 ensures s[k].1 >= s[l].1 {
      if l == j && k < j - 1 {
        assert s[k].1 >= s[j - 1].1;
      }
    }
  }

  /** One insertion step: the entry at `i` moves left past every entry with a smaller count. */
  method SinkLeft(a: array<Entry>, i: nat)
    requires i < a.Length && Descending(a[..i])
    modifies a
    ensures Descending(a[..i + 1])
    ensures multiset(a[..]) == multiset(old(a[..]))
  {
    var j := i;
    SinkStart(a[..], i);
    while j > 0 && a[j - 1].1 < a[j].1
      invariant 0 <= j <= i
      invariant Sinking(a[..], i, j)
      invariant multiset(a[..]) == multiset(old(a[..]))
    {
      SwapStep(a[..], i, j);
      Swap(a, j - 1, j);
      j := j - 1;
    }
    SinkDone(a[..], i, j);
  }

  /** `.take(20)`: at most the first twenty entries. */
  function Top(entries: seq<Entry>): (r: seq<Entry>)
    ensures |r| == if |entries| < 20 then |entries| else 20
    ensures r <= entries
  {
    if |entries| <= 20 then entries else entries[..20]
  }

  /** Every entry left out by `take(20)` has a count no larger than any entry kept. */
  lemma TopIsMostFrequent(sorted: seq<Entry>, k: nat, e: Entry)
    requires Descending(sorted)
    requires |Top(sorted)| <= k < |sorted| && sorted[k] == e
    ensures forall i :: 0 <= i < |Top(sorted)| ==> Top(sorted)[i].1 >= e.1
  {
  }

  /**
   * The whole lesson: count, collect, sort by descending count, keep twenty.
   * `sorted` is the vector after sorting, `top` the entries printed.
   */
  method MostCommon(text: string) returns (sorted: seq<Entry>, top: seq<Entry>)
    ensures multiset(sorted) == multiset(Tally(Pieces(text)).Items)
    ensures Descending(sorted)
    ensures top == Top(sorted)
  {
    var counts := CountWords(text);
    var entries := Entries(counts);
    SortByCount(entries);
    sorted := entries[..];
    top := Top(sorted);
  }

  /** Two delimiters in a row leave an empty piece between them, which is counted as the empty word. */
  lemma AdjacentDelimiters(a: string, d1: char, d2: char, b: string)
    requires NoneIn(a, NotAlphabetic) && !IsAlpha(d1) && !IsAlpha(d2)
    ensures "" in Pieces(a + [d1] + ([d2] + b))
    ensures "" in Tally(Pieces(a + [d1] + ([d2] + b)))
  {
    var text := a + [d1] + ([d2] + b);
    SplitAfterPiece(a, d1, [d2] + b, NotAlphabetic);
    SplitAfterPiece("", d2, b, NotAlphabetic);
    assert "" + [d2] + b == [d2] + b;
    assert Split(text, NotAlphabetic)[1] == "";
    assert Pieces(text)[1] == ToLowercase("") == "";
    TallyCounts(Pieces(text));
  }
}
