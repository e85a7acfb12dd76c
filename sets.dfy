/**
 * Sets of words, from the sets lesson: `make_set` collects the
 * whitespace-separated words of a text into a set, `to_set` collects any
 * iterator, and the lesson intersects two sets of words.
 */
module WordSets {
  import opened Text
  import opened Splitting

  /** `iter.collect::<HashSet<_>>()`, for an iterator that yields `items` in order. */
  function ToSet<T(!new)>(items: seq<T>): (r: set<T>)
    ensures forall x :: x in r <==> x in items
    ensures |r| <= |items|
  {
    if items == [] then {}
    else
      var rest := ToSet(items[1..]);
      assert forall x :: x in items <==> x == items[0] || x in items[1..];
      {items[0]} + rest
  }

  /** `make_set`: the words of the text. */
  function MakeSet(words: string): (r: set<string>)
    ensures forall w :: w in r <==> w in Words(words)
  {
    ToSet(Words(words))
  }

  /** The `String` version maps every word through `to_string` before collecting. */
  function MakeOwnedSet(words: string): (r: set<string>)
    ensures forall w :: w in r <==> w in Words(words)
  {
    var ws := Words(words);
    var owned := seq(|ws|, i requires 0 <= i < |ws| => ws[i]);
    assert owned == ws;
    ToSet(owned)
  }

  /** Both versions of `make_set` give the same set. */
  lemma OwnedSameMembers(words: string)
    ensures MakeOwnedSet(words) == MakeSet(words)
  {
  }

  /** `a.intersection(&b).to_set()`: the elements in both. */
  function Intersect(a: set<string>, b: set<string>): (r: set<string>)
    ensures forall w :: w in r <==> w in a && w in b
  {
    a * b
  }

  /** A word is in the set just when it is one of the non-empty pieces between whitespace. */
  lemma MakeSetMembers(words: string, w: string)
    ensures w in MakeSet(words) <==> w != [] && w in Split(words, IsWhitespace)
  {
    WordsMembers(words, w);
  }

  /** Collecting the same item twice keeps one copy. */
  lemma ToSetRepeats<T(!new)>(items: seq<T>, x: T)
    requires x in items
    ensures ToSet(items + [x]) == ToSet(items)
  {
  }

  // ---------------------------------------------------------------------------
  // The lesson's sets

  lemma FruitLine()
    ensures "apple orange pear orange" == Join(["apple", "orange", "pear", "orange"], ' ')
  {
    JoinCons("pear", ["orange"], ' ');
    JoinCons("orange", ["pear", "orange"], ' ');
    JoinCons("apple", ["orange", "pear", "orange"], ' ');
  }

  lemma FruitWords()
    ensures Words("apple orange pear orange") == ["apple", "orange", "pear", "orange"]
  {
    FruitLine();
    var xs := ["apple", "orange", "pear", "orange"];
    assert IsWord("apple") && IsWord("orange") && IsWord("pear");
    assert forall i :: 0 <= i < |xs| ==> IsWord(xs[i]);
    WordsOfSpaced(xs);
  }

  lemma FruitSet()
    ensures ToSet(["apple", "orange", "pear", "orange"]) == {"apple", "orange", "pear"}
  {
    ToSetFour("apple", "orange", "pear", "orange");
  }

  /** Three different items make a set of three. */
  lemma ThreeMembers<T>(a: T, b: T, c: T)
    requires a != b && b != c && a != c
    ensures |{a, b, c}| == 3
  {
    assert {a, b, c} == {a, b} + {c};
  }

  /** `make_set("apple orange pear orange")` has three members: the repeat adds nothing. */
  lemma FruitExample()
    ensures MakeSet("apple orange pear orange") == {"apple", "orange", "pear"}
    ensures |MakeSet("apple orange pear orange")| == 3
  {
    FruitWords();
    FruitSet();
    assert MakeSet("apple orange pear orange") == ToSet(["apple", "orange", "pear", "orange"]);
    ThreeMembers("apple", "orange", "pear");
  }

  lemma ThreeFruitLine()
    ensures "apple orange pear" == Join(["apple", "orange", "pear"], ' ')
  {
    JoinCons("orange", ["pear"], ' ');
    JoinCons("apple", ["orange", "pear"], ' ');
  }

  lemma ThreeFruitWords()
    ensures Words("apple orange pear") == ["apple", "orange", "pear"]
  {
    ThreeFruitLine();
    var xs := ["apple", "orange", "pear"];
    assert IsWord("apple") && IsWord("orange") && IsWord("pear");
    assert forall i :: 0 <= i < |xs| ==> IsWord(xs[i]);
    WordsOfSpaced(xs);
  }

  lemma ColoursLine()
    ensures "brown purple orange yellow" == Join(["brown", "purple", "orange", "yellow"], ' ')
  {
    JoinCons("orange", ["yellow"], ' ');
    JoinCons("purple", ["orange", "yellow"], ' ');
    JoinCons("brown", ["purple", "orange", "yellow"], ' ');
  }

  lemma ColourWords()
    ensures Words("brown purple orange yellow") == ["brown", "purple", "orange", "yellow"]
  {
    ColoursLine();
    var xs := ["brown", "purple", "orange", "yellow"];
    assert IsWord("brown") && IsWord("purple") && IsWord("orange") && IsWord("yellow");
    assert forall i :: 0 <= i < |xs| ==> IsWord(xs[i]);
    WordsOfSpaced(xs);
  }

  /** Collecting three items. */
  lemma ToSetThree<T(!new)>(a: T, b: T, c: T)
    ensures ToSet([a, b, c]) == {a, b, c}
  {
  }

  /** Collecting four items. */
  lemma ToSetFour<T(!new)>(a: T, b: T, c: T, d: T)
    ensures ToSet([a, b, c, d]) == {a, b, c, d}
  {
  }

  /** Of the three fruit only "orange" is also a colour. */
  lemma SharedWords()
    ensures {"apple", "orange", "pear"} * {"brown", "purple", "orange", "yellow"} == {"orange"}
  {
  }

  /** The fruit and the colours share only "orange". */
  lemma IntersectionExample()
    ensures Intersect(MakeSet("apple orange pear"), MakeSet("brown purple orange yellow")) == {"orange"}
  {
    ThreeFruitWords();
    ColourWords();
    ToSetThree("apple", "orange", "pear");
    ToSetFour("brown", "purple", "orange", "yellow");
    SharedWords();
    assert MakeSet("apple orange pear") == {"apple", "orange", "pear"};
    assert MakeSet("brown purple orange yellow") == {"brown", "purple", "orange", "yellow"};
  }
}
