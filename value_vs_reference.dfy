/** Value types are copied on assignment; arrays are shared by reference. */
module ValueVsReference {
  import Text

  /** The notebook's two experiments and the two lines it prints: `b` is a
      copy of `a`, so reassigning it leaves `a` alone; `arr2` is the same
      array as `arr1`, so a write through one is seen through the other and
      touches only the slot written. */
  method ValueVsReferenceDemo() returns (a: int, b: int, arr1: array<int>, arr2: array<int>, lines: seq<string>)
    ensures a == 10 && b == 20
    ensures arr1 == arr2
    ensures arr1.Length == 2 && arr1[0] == 99 && arr2[0] == 99 && arr1[1] == 2
    ensures lines == ["Value types -> a = 10, b = 20", "Reference types -> arr1[0] = 99, arr2[0] = 99"]
  {
    a := 10;
    b := a;
    b := 20;
    assert Text.IntToString(10) == "10" && Text.IntToString(20) == "20";
    var line1 := "Value types -> a = " + Text.IntToString(a) + ", b = " + Text.IntToString(b);
    assert line1 == "Value types -> a = 10, b = 20";
    arr1 := new int[] [1, 2];
    arr2 := arr1;
    arr2[0] := 99;
    assert Text.IntToString(99) == "99";
    var line2 := "Reference types -> arr1[0] = " + Text.IntToString(arr1[0]) + ", arr2[0] = " + Text.IntToString(arr2[0]);
    assert line2 == "Reference types -> arr1[0] = 99, arr2[0] = 99";
    lines := [line1, line2];
  }
}
