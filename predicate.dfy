/** The Predicate<T> notebook: a string-length test, C#'s even/odd tests
    on ints, and List<int>'s Find and in-place RemoveAll. */
module PredicateExamples {
  import opened Wrappers
  import opened Linq
  import Text

  /** `longWord = word => word.Length > 5`, where `Length` counts UTF-16
      code units. */
  predicate LongWord(word: string) {
    Text.Utf16Length(word) > 5
  }

  /** For a word of the Basic Multilingual Plane the test is "more than
      five characters"; a word of three emoji is already long. */
  lemma LongWordMeaning(word: string)
    ensures (forall i :: 0 <= i < |word| ==> Text.InBmp(word[i])) ==> (LongWord(word) <==> |word| > 5)
    ensures |"\U{1F600}\U{1F600}\U{1F600}"| == 3 && LongWord("\U{1F600}\U{1F600}\U{1F600}")
  {
    Text.Utf16LengthIsLength(word);
    var e := "\U{1F600}";
    assert "\U{1F600}\U{1F600}\U{1F600}" == e + e + e;
    Text.Utf16LengthAppend(e, e);
    Text.Utf16LengthAppend(e + e, e);
  }

  /** "Elephant" is a long word. */
  lemma ElephantIsLong()
    ensures LongWord("Elephant")
  {
    var w := "Elephant";
    assert forall i :: 0 <= i < |w| ==> Text.InBmp(w[i]);
    LongWordMeaning(w);
  }

  /** C#'s `x % 2`: the remainder truncates toward zero, so it takes the
      dividend's sign (Dafny's own `%` never goes negative). */
  function Rem2(x: int): (r: int)
    ensures -1 <= r <= 1
    ensures r == 0 <==> x % 2 == 0
    ensures x >= 0 ==> r == x % 2
    ensures x < 0 ==> r <= 0
  {
    if x >= 0 then x % 2 else -((-x) % 2)
  }

  /** `isEven = x => x % 2 == 0`. */
  predicate IsEven(x: int) {
    Rem2(x) == 0
  }

  /** `isOdd = x => x % 2 != 0`. */
  predicate IsOdd(x: int) {
    Rem2(x) != 0
  }

  /** The complement of a test, as RemoveAll leaves it. */
  function Not(p: int -> bool): int -> bool {
    x => !p(x)
  }

  /** Being odd is exactly not being even, for every int, negatives
      included; a negative odd number leaves remainder -1, which the
      `!= 0` test still catches where a `== 1` test would not. */
  lemma OddIffNotEven(x: int)
    ensures IsOdd(x) <==> !IsEven(x)
    ensures IsEven(x) <==> x % 2 == 0
    ensures IsOdd(x) && x < 0 ==> Rem2(x) == -1
  {
  }

  /** The C# `List<int>`: a backing array whose first `size` slots hold
      the elements. */
  class IntList {
    var items: array<int>
    var size: nat

    ghost predicate Valid()
      reads this
    {
      size <= items.Length
    }

    /** The list's elements in order. */
    function Contents(): seq<int>
      reads this, items
      requires Valid()
    {
      items[..size]
    }

    /** A collection initializer `new List<int> { ... }`. */
    constructor(init: seq<int>)
      ensures Valid() && Contents() == init
      ensures fresh(items)
    {
      items := new int[|init|](i requires 0 <= i < |init| => init[i]);
      size := |init|;
    }

    /** `Find`: the first element satisfying `p`, or `default(int)` when
        none does; the list is left as it is. */
    method Find(p: int -> bool) returns (r: int)
      requires Valid()
      ensures r == FirstOrDefault(Contents(), p).GetOr(0)
    {
      var i := 0;
      while i < size
        invariant 0 <= i <= size
        invariant forall j :: 0 <= j < i ==> !p(items[j])
      {
        if p(items[i]) {
          assert Contents()[i] == items[i];
          return items[i];
        }
        i := i + 1;
      }
      return 0;
    }

    /** `RemoveAll`: compacts the elements failing `p` to the front, in
        their original order, and returns how many were removed. */
    method RemoveAll(p: int -> bool) returns (removed: int)
      requires Valid()
      modifies items, this`size
      ensures Valid()
      ensures Contents() == Where(old(Contents()), Not(p))
      ensures removed == old(size) - size == |Where(old(Contents()), p)|
    {
      ghost var s := Contents();
      var w := 0;
      var i := 0;
      while i < size
        invariant 0 <= w <= i <= size <= items.Length
        invariant size == |s|
        invariant items[..w] == Where(s[..i], Not(p))
        invariant forall k :: i <= k < size ==> items[k] == s[k]
      {
        WherePrefixStep(s, Not(p), i);
        var x := items[i];
        assert x == s[i];
        if !p(x) {
          ghost var kept := items[..w];
          items[w] := x;
          assert items[..w + 1] == kept + [x];
          w := w + 1;
        }
        i := i + 1;
      }
      assert s[..size] == s;
      WhereSplitsLength(s, p);
      removed := size - w;
      size := w;
    }
  }

  /** Where over one more element of a prefix. */
  lemma WherePrefixStep(s: seq<int>, q: int -> bool, i: nat)
    requires i < |s|
    ensures Where(s[..i + 1], q) == Where(s[..i], q) + (if q(s[i]) then [s[i]] else [])
  {
    assert s[..i + 1] == s[..i] + [s[i]];
    WhereAppend(s[..i], [s[i]], q);
    assert [s[i]][1..] == [];
  }

  /** Every element either satisfies `p` or its complement. */
  lemma {:induction false} WhereSplitsLength(s: seq<int>, p: int -> bool)
    ensures |Where(s, p)| + |Where(s, Not(p))| == |s|
  {
    if s != [] {
      WhereSplitsLength(s[1..], p);
    }
  }

  /** After RemoveAll(p) no remaining element satisfies `p`, and every
      element that failed `p` is still there. */
  lemma RemoveAllMeaning(s: seq<int>, p: int -> bool, x: int)
    ensures forall i :: 0 <= i < |Where(s, Not(p))| ==> !p(Where(s, Not(p))[i])
    ensures x in Where(s, Not(p)) <==> x in s && !p(x)
  {
    WhereMember(s, Not(p), x);
  }

  /** `numbers.Find(isEven)` over {1, 2, 4, 7, 9} is 2. */
  lemma FirstEvenIsTwo()
    ensures FirstOrDefault([1, 2, 4, 7, 9], IsEven) == Some(2)
  {
    var s := [1, 2, 4, 7, 9];
    assert !IsEven(s[0]) && IsEven(s[1]);
    var r := FirstOrDefault(s, IsEven);
    var i :| 0 <= i < |s| && s[i] == r.value && IsEven(s[i]) && forall j :: 0 <= j < i ==> !IsEven(s[j]);
    assert i == 1;
  }

  /** Removing the odd numbers from {1, 2, 4, 7, 9} leaves 2 and 4. */
  lemma EvensRemain()
    ensures Where([1, 2, 4, 7, 9], Not(IsOdd)) == [2, 4]
  {
    var q := Not(IsOdd);
    assert Where([9], q) == [] by { assert [9][1..] == []; }
    assert Where([7, 9], q) == [] by { assert [7, 9][1..] == [9]; }
    assert Where([4, 7, 9], q) == [4] by { assert [4, 7, 9][1..] == [7, 9]; }
    EvensRemainHead();
  }

  lemma EvensRemainHead()
    requires Where([4, 7, 9], Not(IsOdd)) == [4]
    ensures Where([1, 2, 4, 7, 9], Not(IsOdd)) == [2, 4]
  {
    var q := Not(IsOdd);
    assert Where([2, 4, 7, 9], q) == [2, 4] by { assert [2, 4, 7, 9][1..] == [4, 7, 9]; }
    var s := [1, 2, 4, 7, 9];
    assert s[1..] == [2, 4, 7, 9];
    assert IsOdd(s[0]);
    assert !q(s[0]);
  }

  /** The remaining numbers print as "2, 4". */
  lemma AfterRemovalLine(c: seq<int>)
    requires c == [2, 4]
    ensures Text.Join(", ", Select(c, Text.IntToString)) == "2, 4"
  {
    var after := Select(c, Text.IntToString);
    assert Text.IntToString(2) == "2" && Text.IntToString(4) == "4";
    assert after == ["2"] + ["4"];
    Text.JoinSnoc(", ", ["2"], "4");
  }

  /** The three lines the notebook prints. */
  method PredicateDemo() returns (lines: seq<string>)
    ensures lines == ["Is 'Elephant' a long word? True", "First even number: 2", "After removing odds: 2, 4"]
  {
    var longWord := if LongWord("Elephant") then "True" else "False";
    ElephantIsLong();
    var numbers := new IntList([1, 2, 4, 7, 9]);
    var firstEven := numbers.Find(IsEven);
    FirstEvenIsTwo();
    assert firstEven == 2;
    var _ := numbers.RemoveAll(IsOdd);
    EvensRemain();
    assert numbers.Contents() == [2, 4];
    var after := Text.Join(", ", Select(numbers.Contents(), Text.IntToString));
    AfterRemovalLine(numbers.Contents());
    DemoLines(longWord, firstEven, after);
    lines := ["Is 'Elephant' a long word? " + longWord,
              "First even number: " + Text.IntToString(firstEven),
              "After removing odds: " + after];
  }

  /** The three lines, from the three values the demo computes. */
  lemma DemoLines(longWord: string, firstEven: int, after: string)
    requires longWord == "True" && firstEven == 2 && after == "2, 4"
    ensures ["Is 'Elephant' a long word? " + longWord,
             "First even number: " + Text.IntToString(firstEven),
             "After removing odds: " + after]
         == ["Is 'Elephant' a long word? True", "First even number: 2", "After removing odds: 2, 4"]
  {
    assert Text.IntToString(2) == "2";
    assert "Is 'Elephant' a long word? " + longWord == "Is 'Elephant' a long word? True";
    assert "First even number: " + Text.IntToString(firstEven) == "First even number: 2";
    assert "After removing odds: " + after == "After removing odds: 2, 4";
  }
}
