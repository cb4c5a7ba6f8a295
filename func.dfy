/** The Func<T> notebook: a two-argument adder, a case-insensitive
    palindrome test and a squaring projection. */
module FuncExamples {
  import Int32
  import Text
  import Linq

  /** `Func<int, int, int> add = (x, y) => x + y` on C# ints. */
  function AddInts(x: int, y: int): (r: int)
    requires Int32.InRange(x) && Int32.InRange(y)
    ensures Int32.InRange(r)
    ensures (r - (x + y)) % Int32.Modulus == 0
  {
    Int32.Add(x, y)
  }

  /** Sums that fit an int are exact; 5 + 7 is 12. */
  lemma AddExact(x: int, y: int)
    requires Int32.InRange(x) && Int32.InRange(y) && Int32.InRange(x + y)
    ensures AddInts(x, y) == x + y
  {
  }

  lemma SumLine()
    ensures "Sum of 5 and 7 is " + Text.IntToString(AddInts(5, 7)) == "Sum of 5 and 7 is 12"
  {
    assert AddInts(5, 7) == 12;
    assert Text.IntToString(12) == "12";
  }

  /** `isPalindrome`: the text equals its reversal, ignoring ASCII case. */
  predicate IsPalindrome(text: string) {
    Text.EqualsIgnoreCase(text, Text.Reverse(text))
  }

  /** A palindrome reads the same from both ends, position by position. */
  lemma PalindromeMirrors(text: string)
    ensures IsPalindrome(text) <==>
      forall i :: 0 <= i < |text| ==> Text.ToUpperOrdinal(text[i]) == Text.ToUpperOrdinal(text[|text| - 1 - i])
  {
    var rev := Text.Reverse(text);
    assert forall i :: 0 <= i < |text| ==> rev[i] == text[|text| - 1 - i];
  }

  /** A text and its reversal are palindromes together. */
  lemma PalindromeOfReverse(text: string)
    ensures IsPalindrome(text) == IsPalindrome(Text.Reverse(text))
  {
    var rev := Text.Reverse(text);
    Text.ReverseReverse(text);
    assert IsPalindrome(rev) == Text.EqualsIgnoreCase(rev, text);
    Text.EqualsIgnoreCaseSymmetric(text, rev);
  }

  /** "level" is a palindrome, and so is "Level", since case is ignored. */
  lemma LevelIsPalindrome()
    ensures IsPalindrome("level")
    ensures IsPalindrome("Level")
  {
    var lower := Text.Reverse("level");
    assert lower == "level" by {
      assert forall i :: 0 <= i < 5 ==> lower[i] == "level"[4 - i];
    }
    var upper := Text.Reverse("Level");
    assert upper == "leveL" by {
      assert forall i :: 0 <= i < 5 ==> upper[i] == "Level"[4 - i];
    }
    assert Text.ToUpperOrdinal('L') == Text.ToUpperOrdinal('l');
  }

  /** The line the demo prints for "level". */
  lemma PalindromeLine()
    ensures "Is 'level' palindrome? " + (if IsPalindrome("level") then "True" else "False")
      == "Is 'level' palindrome? True"
  {
    LevelIsPalindrome();
  }

  /** A pair of letters that differ in more than case breaks the test. */
  lemma NotPalindrome()
    ensures !IsPalindrome("ab")
  {
    var rev := Text.Reverse("ab");
    assert rev[0] == 'b';
    assert Text.ToUpperOrdinal('a') != Text.ToUpperOrdinal('b');
  }

  /** `Func<int, int> square = n => n * n` on C# ints. */
  function Square(n: int): (r: int)
    ensures Int32.InRange(r)
    ensures Int32.InRange(n * n) ==> r == n * n
    ensures (r - n * n) % Int32.Modulus == 0
  {
    Int32.Wrap(n * n)
  }

  /** Past 46340 in magnitude the square wraps, as unchecked C# ints do. */
  lemma SquareWraps()
    ensures Square(46341) == -2147479015
    ensures Square(65536) == 0
  {
  }

  /** Squares of numbers up to 46340 in magnitude fit an int. */
  lemma SquareFits(n: int)
    requires -46340 <= n <= 46340
    ensures Int32.InRange(n * n)
  {
    var m := if n < 0 then -n else n;
    assert n * n == m * m;
    MulMonotone(m, 46340, m);
    MulMonotone(m, 46340, 46340);
    assert m * m >= 0;
  }

  lemma MulMonotone(a: int, b: int, c: int)
    requires 0 <= a <= b && 0 <= c
    ensures a * c <= b * c
  {
  }

  /** `data.Select(square)`. */
  function Squares(data: seq<int>): seq<int> {
    Linq.Select(data, Square)
  }

  /** The projection keeps the length and squares each element. */
  lemma SquaresPointwise(data: seq<int>)
    requires forall i :: 0 <= i < |data| ==> -46340 <= data[i] <= 46340
    ensures |Squares(data)| == |data|
    ensures forall i :: 0 <= i < |data| ==> Squares(data)[i] == data[i] * data[i]
  {
    forall i | 0 <= i < |data| ensures Squares(data)[i] == data[i] * data[i] {
      SquareFits(data[i]);
    }
  }

  /** The squares of 1, 2, 3, 4. */
  lemma SquaresOfData()
    ensures Squares([1, 2, 3, 4]) == [1, 4, 9, 16]
  {
    SquaresPointwise([1, 2, 3, 4]);
  }

  /** The program prints "Squares: 1, 4, 9, 16". */
  lemma SquaresLine()
    ensures "Squares: " + Text.Join(", ", Linq.Select([1, 4, 9, 16], Text.IntToString)) == "Squares: 1, 4, 9, 16"
  {
    var strs := Linq.Select([1, 4, 9, 16], Text.IntToString);
    assert Text.IntToString(16) == "16";
    assert strs == ["1", "4", "9", "16"];
    JoinFour();
  }

  lemma JoinFour()
    ensures Text.Join(", ", ["1", "4", "9", "16"]) == "1, 4, 9, 16"
  {
    Text.JoinSnoc(", ", ["1", "4", "9"], "16");
    Text.JoinSnoc(", ", ["1", "4"], "9");
    Text.JoinSnoc(", ", ["1"], "4");
    assert ["1", "4", "9"] + ["16"] == ["1", "4", "9", "16"];
    assert ["1", "4"] + ["9"] == ["1", "4", "9"];
    assert ["1"] + ["4"] == ["1", "4"];
  }
}
