/** The interactive menu of the program's entry point: a fixed table from a
    key to a label and a demo, and a loop that reads one line per round,
    trims it, exits on "0", runs the demo the key names, or reports the
    choice as invalid. The demos themselves are opaque actions here. */
module Menu {
  import opened Wrappers
  import opened Text

  /** The demo an entry runs; the dispatcher only ever invokes it. */
  datatype Demo =
    | ValueVsReference | BoxingUnboxing | OopClassObject | OopInheritance
    | OopPolymorphism | OopAbstraction | OopInterface | OopEncapsulation
    | OopStaticVsInstance | OopConstructors | OopIsAHasA | Delegates
    | Events | FuncExamples | ActionExamples | PredicateExamples

  /** The value half of a table entry: the menu label and the action (the source calls the first `Label`). */
  datatype Topic = Topic(title: string, run: Demo)

  type Registry = map<string, Topic>

  const ExitKey: string := "0"
  const ExitLine: string := "0. Exit"
  const InvalidMessage: string := "Invalid choice. Try again."
  const ExitMessage: string := "Exiting..."

  /** The entries of the table's collection initializer, in source order. */
  const Registrations: seq<(string, Topic)> := [
    ("1", Topic("Day 1 - Value vs Reference", ValueVsReference)),
    ("2", Topic("Day 2 - Boxing and Unboxing", BoxingUnboxing)),
    ("3", Topic("Day 2 - OOP: Class & Object", OopClassObject)),
    ("4", Topic("Day 2 - OOP: Inheritance", OopInheritance)),
    ("5", Topic("Day 2 - OOP: Polymorphism", OopPolymorphism)),
    ("6", Topic("Day 2 - OOP: Abstraction", OopAbstraction)),
    ("7", Topic("Day 2 - OOP: Interface", OopInterface)),
    ("8", Topic("Day 2 - OOP: Encapsulation", OopEncapsulation)),
    ("9", Topic("Day 2 - OOP: Static vs Instance", OopStaticVsInstance)),
    ("10", Topic("Day 2 - OOP: Constructor Types", OopConstructors)),
    ("11", Topic("Day 2 - OOP: IS-A vs HAS-A", OopIsAHasA)),
    ("12", Topic("Day 3 - Delegates", Delegates)),
    ("13", Topic("Day 3 - Events", Events)),
    ("14", Topic("Day 3 - Func<T> examples", FuncExamples)),
    ("15", Topic("Day 3 - Action<T> examples", ActionExamples)),
    ("16", Topic("Day 3 - Predicate<T> examples", PredicateExamples))
  ]

  /** The keys the entries add. */
  function KeysOf(entries: seq<(string, Topic)>): set<string> {
    if entries == [] then {} else KeysOf(entries[..|entries| - 1]) + {entries[|entries| - 1].0}
  }

  /** No entry repeats the key of an earlier one. */
  predicate KeysDistinct(entries: seq<(string, Topic)>) {
    entries == [] ||
    (KeysDistinct(entries[..|entries| - 1]) && entries[|entries| - 1].0 !in KeysOf(entries[..|entries| - 1]))
  }

  /** `Dictionary.Add` for every entry in turn. `Add` throws on a key that
      is already present, which makes the static initialiser fail: None. */
  function Register(entries: seq<(string, Topic)>): (r: Option<Registry>)
    ensures r.Some? <==> KeysDistinct(entries)
    ensures r.Some? ==> r.value.Keys == KeysOf(entries) && |r.value| == |entries|
  {
    if entries == [] then Some(map[])
    else
      var init := entries[..|entries| - 1];
      var (k, t) := entries[|entries| - 1];
      match Register(init)
      case None => None
      case Some(m) => if k in m then None else Some(m[k := t])
  }

  /** A successful registration maps every entry's key to that entry's topic. */
  lemma {:induction false} RegisterMapsEntries(entries: seq<(string, Topic)>, i: nat)
    requires KeysDistinct(entries) && i < |entries|
    ensures entries[i].0 in Register(entries).value
    ensures Register(entries).value[entries[i].0] == entries[i].1
  {
    var init := entries[..|entries| - 1];
    if i < |init| {
      RegisterMapsEntries(init, i);
      assert init[i] == entries[i];
      assert entries[i].0 in KeysOf(init);
    }
  }

  /** The program's table. */
  function Topics(): Registry {
    Register(Registrations).GetOr(map[])
  }

  /** A key added by the entries is the key of one of them. */
  lemma {:induction false} KeysOfMember(entries: seq<(string, Topic)>, k: string)
    requires k in KeysOf(entries)
    ensures exists i :: 0 <= i < |entries| && entries[i].0 == k
  {
    var init := entries[..|entries| - 1];
    if k != entries[|entries| - 1].0 {
      KeysOfMember(init, k);
      var i :| 0 <= i < |init| && init[i].0 == k;
      assert entries[i].0 == k;
    }
  }

  /** Entries keyed "1", "2", "3", ... in order never repeat a key. */
  lemma {:induction false} NumberedKeysDistinct(entries: seq<(string, Topic)>)
    requires forall i :: 0 <= i < |entries| ==> entries[i].0 == NatToString(i + 1)
    ensures KeysDistinct(entries)
  {
    if entries != [] {
      var init := entries[..|entries| - 1];
      var last := entries[|entries| - 1].0;
      assert forall i :: 0 <= i < |init| ==> init[i] == entries[i];
      NumberedKeysDistinct(init);
      if last in KeysOf(init) {
        KeysOfMember(init, last);
        var i :| 0 <= i < |init| && init[i].0 == last;
        NatToStringInjective(i + 1, |entries|);
        assert false;
      }
    }
  }

  /** The table is built without a duplicate key: sixteen entries "1" to
      "16", none of them the exit key. */
  lemma TopicsTable()
    ensures Register(Registrations).Some?
    ensures |Topics()| == 16
    ensures forall i :: 0 <= i < |Registrations| ==>
      Registrations[i].0 in Topics() && Topics()[Registrations[i].0] == Registrations[i].1
    ensures forall i :: 0 <= i < |Registrations| ==> Registrations[i].0 == NatToString(i + 1)
    ensures ExitKey !in Topics()
  {
    forall i | 0 <= i < |Registrations|
      ensures Registrations[i].0 == NatToString(i + 1)
    {
      assert i == 0 || i == 1 || i == 2 || i == 3 || i == 4 || i == 5 || i == 6 || i == 7 || i == 8 || i == 9 || i == 10 || i == 11 || i == 12 || i == 13 || i == 14 || i == 15;
    }
    NumberedKeysDistinct(Registrations);
    forall i | 0 <= i < |Registrations|
      ensures Registrations[i].0 in Topics() && Topics()[Registrations[i].0] == Registrations[i].1
    {
      RegisterMapsEntries(Registrations, i);
    }
    if ExitKey in Topics() {
      KeysOfMember(Registrations, ExitKey);
    }
  }

  /** Every key of the program's table is the rendering of a number from 1
      to 16. */
  lemma TopicKeyNumbered(k: string)
    requires k in Topics()
    ensures exists n: nat :: 1 <= n <= 16 && k == NatToString(n)
  {
    TopicsTable();
    KeysOfMember(Registrations, k);
    var i :| 0 <= i < |Registrations| && Registrations[i].0 == k;
    assert k == NatToString(i + 1);
  }

  // ---------------------------------------------------------------------
  // One round of the loop

  /** What one line of input leads to. `Run` carries the entry
      `TryGetValue` found. */
  datatype Outcome = Invalid | Exit | Run(key: string, topic: Topic)

  /** The decision one round makes for the line `ReadLine` returned (None
      for null). */
  function Classify(reg: Registry, input: Option<string>): (o: Outcome)
    ensures o.Run? ==> o.key in reg && reg[o.key] == o.topic
  {
    if IsNullOrWhiteSpace(input) then Invalid
    else
      var choice := Trim(input.value);
      if choice == ExitKey then Exit
      else if choice in reg then Run(choice, reg[choice])
      else Invalid
  }

  /** Null, empty and whitespace-only lines are invalid and run nothing. */
  lemma BlankIsInvalid(reg: Registry, input: Option<string>)
    requires IsNullOrWhiteSpace(input)
    ensures Classify(reg, input) == Invalid
  {
  }

  /** The exit decision is taken on the trimmed line before any lookup, so
      it holds even for a table that had "0" as a key. */
  lemma ExitIff(reg: Registry, input: Option<string>)
    ensures Classify(reg, input) == Exit <==> input.Some? && Trim(input.value) == ExitKey
  {
    if input.Some? && Trim(input.value) == ExitKey {
      TrimEmptyIffBlank(input.value);
    }
  }

  /** A line runs a demo exactly when, trimmed, it is a non-empty key of the
      table other than "0"; the entry run is then that key's. */
  lemma RunIff(reg: Registry, input: Option<string>)
    ensures Classify(reg, input).Run? <==>
      input.Some? && Trim(input.value) != "" && Trim(input.value) != ExitKey && Trim(input.value) in reg
    ensures Classify(reg, input).Run? ==>
      Classify(reg, input).key == Trim(input.value) && Classify(reg, input).topic == reg[Trim(input.value)]
  {
    if input.Some? {
      TrimEmptyIffBlank(input.value);
    }
  }

  /** Every other line is reported as invalid; so is a blank line even
      when the table has the empty key, which no line can select. */
  lemma InvalidIff(reg: Registry, input: Option<string>)
    ensures Classify(reg, input) == Invalid <==>
      input.None? || Trim(input.value) == "" || (Trim(input.value) != ExitKey && Trim(input.value) !in reg)
  {
    if input.Some? {
      TrimEmptyIffBlank(input.value);
    }
  }

  /** Trimming first changes nothing: only the trimmed line is compared. */
  lemma ClassifyTrimmed(reg: Registry, s: string)
    ensures Classify(reg, Some(s)) == Classify(reg, Some(Trim(s)))
  {
    TrimIdempotent(s);
    TrimEmptyIffBlank(s);
    TrimEmptyIffBlank(Trim(s));
  }

  /** Whitespace around a key does not matter: " 2 " selects "2". */
  lemma SurroundingWhiteSpaceIgnored(reg: Registry, pre: string, k: string, post: string)
    requires AllWhiteSpace(pre) && AllWhiteSpace(post)
    requires k != [] && !IsWhiteSpace(k[0]) && !IsWhiteSpace(k[|k| - 1])
    ensures Classify(reg, Some(pre + k + post)) == Classify(reg, Some(k))
  {
    TrimSurrounded(pre, k, post);
    TrimSurrounded([], k, []);
    assert [] + k + [] == k;
    ClassifyTrimmed(reg, pre + k + post);
    ClassifyTrimmed(reg, k);
  }

  /** A key of the table that neither starts nor ends with whitespace and is
      not "0" can be selected by typing it. */
  lemma KeySelectable(reg: Registry, k: string)
    requires k in reg && k != ExitKey
    requires k != [] && !IsWhiteSpace(k[0]) && !IsWhiteSpace(k[|k| - 1])
    ensures Classify(reg, Some(k)) == Run(k, reg[k])
  {
    TrimSurrounded([], k, []);
    assert [] + k + [] == k;
    RunIff(reg, Some(k));
  }

  /** Each key of the program's table, typed as it is shown, runs its own
      entry. */
  lemma EveryTopicSelectable(i: nat)
    requires i < |Registrations|
    ensures Classify(Topics(), Some(Registrations[i].0)) == Run(Registrations[i].0, Registrations[i].1)
  {
    TopicsTable();
    assert Registrations[i].0 == NatToString(i + 1);
    NumberSelectable(Topics(), i + 1);
  }

  /** A registered number other than the exit key selects its entry. */
  lemma NumberSelectable(reg: Registry, n: nat)
    requires NatToString(n) in reg && NatToString(n) != ExitKey
    ensures Classify(reg, Some(NatToString(n))) == Run(NatToString(n), reg[NatToString(n)])
  {
    NatToStringUnpadded(n);
    KeySelectable(reg, NatToString(n));
  }

  // ---------------------------------------------------------------------
  // The loop

  /** What the console shows, or which demo is invoked. */
  datatype Event = MenuShown | Say(line: string) | Invoke(demo: Demo)

  /** What a round does after reading its line. */
  function Respond(o: Outcome): (e: Event)
    ensures e.Invoke? <==> o.Run?
    ensures o.Run? ==> e.demo == o.topic.run
    ensures o == Invalid <==> e == Say(InvalidMessage)
    ensures o == Exit <==> e == Say(ExitMessage)
  {
    match o
    case Invalid => Say(InvalidMessage)
    case Exit => Say(ExitMessage)
    case Run(_, topic) => Invoke(topic.run)
  }

  /** The console and the actions over a run of rounds: each round shows
      the menu, then responds. */
  function Transcript(os: seq<Outcome>): (log: seq<Event>)
    ensures |log| == 2 * |os|
    ensures forall i :: 0 <= i < |os| ==> log[2 * i] == MenuShown && log[2 * i + 1] == Respond(os[i])
  {
    if os == [] then [] else Transcript(os[..|os| - 1]) + [MenuShown, Respond(os[|os| - 1])]
  }

  /** The outcomes of the rounds a run of the loop goes through when each
      line read is decided by `decide`: one per line read, in order, where
      only exit stops the loop and no line after it is read. */
  function Rounds(decide: Option<string> -> Outcome, inputs: seq<Option<string>>): (os: seq<Outcome>)
    ensures |os| <= |inputs|
    ensures forall i :: 0 <= i < |os| ==> os[i] == decide(inputs[i])
    ensures forall i :: 0 <= i < |os| - 1 ==> os[i] != Exit
    ensures |os| < |inputs| ==> os != [] && os[|os| - 1] == Exit
  {
    if inputs == [] then []
    else
      var o := decide(inputs[0]);
      if o == Exit then [o] else [o] + Rounds(decide, inputs[1..])
  }

  /** How the program's loop over the table `reg` decides a line. */
  function Decider(reg: Registry): Option<string> -> Outcome {
    line => Classify(reg, line)
  }

  /** The rounds of the program's loop over the table `reg`. */
  function Session(reg: Registry, inputs: seq<Option<string>>): seq<Outcome> {
    Rounds(Decider(reg), inputs)
  }

  /** The loop reads the lines up to the first that exits, and no more. */
  lemma {:induction false} RoundsLength(decide: Option<string> -> Outcome, inputs: seq<Option<string>>, n: nat)
    requires n < |inputs| && decide(inputs[n]) == Exit
    requires forall i :: 0 <= i < n ==> decide(inputs[i]) != Exit
    ensures |Rounds(decide, inputs)| == n + 1
  {
    if n > 0 {
      assert decide(inputs[0]) != Exit;
      forall i | 0 <= i < n - 1
        ensures decide(inputs[1..][i]) != Exit
      {
        assert inputs[1..][i] == inputs[i + 1];
      }
      RoundsLength(decide, inputs[1..], n - 1);
    }
  }

  /** The contract of `Rounds` determines its result: any run of outcomes
      that decides the lines in order, stops at the first exit and
      otherwise reads every line is the one `Rounds` gives. */
  lemma {:induction false} RoundsUnique(decide: Option<string> -> Outcome, inputs: seq<Option<string>>, os: seq<Outcome>)
    requires |os| <= |inputs|
    requires forall i :: 0 <= i < |os| ==> os[i] == decide(inputs[i])
    requires forall i :: 0 <= i < |os| - 1 ==> os[i] != Exit
    requires |os| < |inputs| ==> os != [] && os[|os| - 1] == Exit
    ensures os == Rounds(decide, inputs)
  {
    if inputs != [] && os != [] && os[0] != Exit {
      var rest := inputs[1..];
      forall i | 0 <= i < |os[1..]|
        ensures os[1..][i] == decide(rest[i])
      {
        assert rest[i] == inputs[i + 1];
      }
      RoundsUnique(decide, rest, os[1..]);
    } else if inputs != [] && os == [] {
      assert false;
    }
  }

  /** `Main`: show the menu, read a line, respond, until the exit key. The
      lines `ReadLine` returns are `inputs`; when they run out while the
      loop is still waiting, `exited` is false. */
  method Dispatch(reg: Registry, inputs: seq<Option<string>>)
    returns (outcomes: seq<Outcome>, log: seq<Event>, exited: bool)
    ensures outcomes == Session(reg, inputs)
    ensures exited <==> outcomes != [] && outcomes[|outcomes| - 1] == Exit
    ensures !exited ==> |outcomes| == |inputs|
    ensures log == Transcript(outcomes)
  {
    outcomes, log, exited := Serve(Decider(reg), inputs);
  }

  /** The loop of `Main`, with the decision on each line read left to
      `decide`. */
  method Serve(decide: Option<string> -> Outcome, inputs: seq<Option<string>>)
    returns (outcomes: seq<Outcome>, log: seq<Event>, exited: bool)
    ensures outcomes == Rounds(decide, inputs)
    ensures exited <==> outcomes != [] && outcomes[|outcomes| - 1] == Exit
    ensures !exited ==> |outcomes| == |inputs|
    ensures log == Transcript(outcomes)
  {
    outcomes, log, exited := [], [], false;
    var i := 0;
    while i < |inputs| && !exited
      invariant 0 <= i <= |inputs|
      invariant |outcomes| == i
      invariant forall j :: 0 <= j < i ==> outcomes[j] == decide(inputs[j])
      invariant forall j :: 0 <= j < i - 1 ==> outcomes[j] != Exit
      invariant exited <==> i > 0 && outcomes[i - 1] == Exit
      invariant log == Transcript(outcomes)
    {
      var o := decide(inputs[i]);
      assert (outcomes + [o])[..|outcomes|] == outcomes;
      outcomes := outcomes + [o];
      log := log + [MenuShown, Respond(o)];
      exited := o == Exit;
      i := i + 1;
    }
    RoundsUnique(decide, inputs, outcomes);
  }

  /** One rendering of the menu: a "key. label" line for every entry, each
      key once, in the table's enumeration order (which `Dictionary` leaves
      unspecified, so any order is allowed), then "0. Exit". */
  method RenderMenu(reg: Registry) returns (order: seq<string>, lines: seq<string>)
    ensures |order| == |reg|
    ensures forall k :: k in reg <==> k in order
    ensures forall i, j :: 0 <= i < j < |order| ==> order[i] != order[j]
    ensures |lines| == |reg| + 1 && lines[|reg|] == ExitLine
    ensures forall i :: 0 <= i < |order| ==> order[i] in reg && lines[i] == order[i] + ". " + reg[order[i]].title
  {
    var remaining := reg.Keys;
    order, lines := [], [];
    while remaining != {}
      invariant remaining <= reg.Keys
      invariant |order| + |remaining| == |reg|
      invariant forall k :: k in reg ==> (k in remaining <==> k !in order)
      invariant forall k :: k in order ==> k in reg
      invariant forall i, j :: 0 <= i < j < |order| ==> order[i] != order[j]
      invariant |lines| == |order|
      invariant forall i :: 0 <= i < |order| ==> lines[i] == order[i] + ". " + reg[order[i]].title
      decreases remaining
    {
      var k :| k in remaining;
      order := order + [k];
      lines := lines + [k + ". " + reg[k].title];
      remaining := remaining - {k};
    }
    lines := lines + [ExitLine];
  }

  /** " 2 " selects key "2" of any table that has it. */
  lemma PaddedKeySelects(reg: Registry)
    requires "2" in reg
    ensures Classify(reg, Some(" 2 ")) == Run("2", reg["2"])
  {
    TrimSurrounded(" ", "2", " ");
    assert " " + "2" + " " == " 2 ";
    RunIff(reg, Some(" 2 "));
  }
}
