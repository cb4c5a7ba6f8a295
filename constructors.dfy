/** Constructor kinds: a default, a parameterised and a chained
    constructor of Person_Ctor, and the once-only static constructor of
    Utility. */
module Constructors {
  import opened Wrappers
  import Text

  const DefaultName := "Unknown"
  const DefaultAge := 0
  /** The age the one-argument constructor chains to. */
  const ChainedAge := 18

  /** `$"{Name} is {Age} years old."`; a null Name interpolates as "". */
  function InfoLine(name: Option<string>, age: int): string {
    name.GetOr("") + " is " + Text.IntToString(age) + " years old."
  }

  /** The line starts with the name and ends with the fixed suffix. */
  lemma InfoLineShape(name: string, age: int)
    ensures |InfoLine(Some(name), age)| > |name| + |" is "|
    ensures InfoLine(Some(name), age)[..|name|] == name
    ensures InfoLine(Some(name), age)[|name|..|name| + 4] == " is "
    ensures InfoLine(Some(name), age)[|InfoLine(Some(name), age)| - |" years old."|..] == " years old."
    ensures InfoLine(Some(name), age)[|name| + 4..|InfoLine(Some(name), age)| - |" years old."|] == Text.IntToString(age)
  {
    var line := InfoLine(Some(name), age);
    var mid := " is " + Text.IntToString(age);
    assert line == name + mid + " years old.";
  }

  class Person {
    var name: Option<string>
    var age: int

    /** Person_Ctor(): "Unknown", aged 0. */
    constructor Default()
      ensures name == Some(DefaultName) && age == DefaultAge
    {
      name := Some(DefaultName);
      age := DefaultAge;
    }

    /** Person_Ctor(name, age): both arguments stored unchanged. */
    constructor (n: string, a: int)
      ensures name == Some(n) && age == a
    {
      name := Some(n);
      age := a;
    }

    /** Person_Ctor(name): chains to (name, 18). */
    constructor WithName(n: string)
      ensures name == Some(n) && age == ChainedAge
    {
      name := Some(n);
      age := ChainedAge;
    }

    method PrintInfo() returns (line: string)
      ensures line == InfoLine(name, age)
    {
      line := InfoLine(name, age);
    }
  }

  const StaticMessage := "Static constructor called (only once)."
  const HelloMessage := "Hello from Utility."

  /** What Utility has written after `n` calls of SayHello: the static
      constructor's message before the first call, then one hello per call. */
  function UtilityTrace(n: nat): (t: seq<string>)
  {
    if n == 0 then [] else UtilityTrace(n - 1) + (if n == 1 then [StaticMessage] else []) + [HelloMessage]
  }

  /** The static message is written exactly once, and first: it comes before
      every hello; a trace with a hello has it. */
  lemma {:induction false} StaticRunsOnceFirst(n: nat)
    ensures |UtilityTrace(n)| == if n == 0 then 0 else n + 1
    ensures forall i :: 0 <= i < |UtilityTrace(n)| ==> (UtilityTrace(n)[i] == StaticMessage <==> i == 0)
    ensures forall i :: 0 < i < |UtilityTrace(n)| ==> UtilityTrace(n)[i] == HelloMessage
  {
    if n > 0 {
      StaticRunsOnceFirst(n - 1);
      var t := UtilityTrace(n);
      if n == 1 {
        assert t == [StaticMessage, HelloMessage];
      } else {
        assert t == UtilityTrace(n - 1) + [HelloMessage];
      }
    }
  }

  /** The Utility type's console effects: whether its static constructor
      has run, and what it wrote. */
  class Utility {
    var initialized: bool
    var output: seq<string>
    ghost var calls: nat

    ghost predicate Valid()
      reads this
    {
      output == UtilityTrace(calls) && initialized == (calls > 0)
    }

    /** The type before its first use. */
    constructor ()
      ensures Valid() && calls == 0 && !initialized && output == []
    {
      initialized := false;
      output := [];
      calls := 0;
    }

    /** Utility.SayHello(): the first use triggers the static constructor. */
    method SayHello()
      requires Valid()
      modifies this
      ensures Valid() && calls == old(calls) + 1 && initialized
      ensures output == old(output) + (if old(initialized) then [] else [StaticMessage]) + [HelloMessage]
    {
      if !initialized {
        output := output + [StaticMessage];
        initialized := true;
      }
      output := output + [HelloMessage];
      calls := calls + 1;
    }
  }

  /** The program's scenario: three people, then one hello. Utility's static
      constructor runs once per process, so its message appears only when no
      earlier run has already used the type. */
  method ConstructorsDemo(u: Utility) returns (lines: seq<string>)
    requires u.Valid()
    modifies u
    ensures u.Valid() && u.calls == old(u.calls) + 1
    ensures lines == [InfoLine(Some("Unknown"), 0), InfoLine(Some("Rohan"), 30), InfoLine(Some("Gatha"), 18)]
      + (if old(u.initialized) then [] else [StaticMessage]) + [HelloMessage]
  {
    var p1 := new Person.Default();
    var l1 := p1.PrintInfo();
    var p2 := new Person("Rohan", 30);
    var l2 := p2.PrintInfo();
    var p3 := new Person.WithName("Gatha");
    var l3 := p3.PrintInfo();
    var before := |u.output|;
    u.SayHello();
    lines := [l1, l2, l3] + u.output[before..];
  }

  /** Choosing the topic twice in one session: only the first run writes the
      static constructor's message. */
  method TwoRuns() returns (first: seq<string>, second: seq<string>)
    ensures |first| == 5 && first[3] == StaticMessage && first[4] == HelloMessage
    ensures |second| == 4 && second[3] == HelloMessage
    ensures first[..3] == second[..3]
    ensures StaticMessage !in second
  {
    var u := new Utility();
    first := ConstructorsDemo(u);
    second := ConstructorsDemo(u);
    assert second[3] == HelloMessage;
  }

  /** The third person's line. */
  lemma GathaLine()
    ensures InfoLine(Some("Gatha"), ChainedAge) == "Gatha is 18 years old."
  {
    assert Text.IntToString(18) == "18";
  }
}
