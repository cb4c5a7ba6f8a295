/** The advanced LINQ notebook: GroupBy with a department-name fallback,
    Join, SelectMany/Distinct, Any, All and Except over fixed lists. */
module LinqAdvanced {
  import opened Wrappers
  import opened Linq

  datatype Department = Department(id: int, name: string)
  datatype Employee = Employee(id: int, name: string, departmentId: int, skills: seq<string>)

  const Departments: seq<Department> := [Department(1, "HR"), Department(2, "IT"), Department(3, "Finance")]

  const Amit := Employee(1, "Amit", 1, ["Excel", "Communication"])
  const Rohan := Employee(2, "Rohan", 2, ["C#", "SQL"])
  const Sneha := Employee(3, "Sneha", 2, ["Angular", "C#", "Azure"])
  const Meera := Employee(4, "Meera", 3, ["Tally"])
  const John := Employee(5, "John", 2, ["React", "NodeJS"])

  const Employees: seq<Employee> := [Amit, Rohan, Sneha, Meera, John]

  const UnknownDepartment := "Unknown"

  function DepartmentIdOf(e: Employee): int { e.departmentId }
  function IdOf(d: Department): int { d.id }
  function NameOf(e: Employee): string { e.name }
  function SkillsOf(e: Employee): seq<string> { e.skills }

  /** 1. `employees.GroupBy(e => e.DepartmentId)`. */
  function Grouped(): seq<(int, seq<Employee>)> {
    GroupBy(Employees, DepartmentIdOf)
  }

  /** The heading of a group: the first department with the group's key, or
      "Unknown" when there is none. */
  function DepartmentName(departments: seq<Department>, key: int): (name: string)
    ensures (forall i :: 0 <= i < |departments| ==> departments[i].id != key) ==> name == UnknownDepartment
    ensures forall i :: (0 <= i < |departments| && departments[i].id == key &&
                         (forall j :: 0 <= j < i ==> departments[j].id != key)) ==> name == departments[i].name
  {
    match FirstOrDefault(departments, (d: Department) => d.id == key)
    case None => UnknownDepartment
    case Some(d) => d.name
  }

  /** Every employee is in exactly one group, keyed by its department id. */
  lemma GroupedPartition(i: nat)
    requires i < |Employees|
    ensures exists g :: 0 <= g < |Grouped()| && Grouped()[g].0 == Employees[i].departmentId
    ensures forall g :: 0 <= g < |Grouped()| && Grouped()[g].0 == Employees[i].departmentId ==>
      forall h :: 0 <= h < |Grouped()| ==> (Employees[i] in Grouped()[h].1 <==> h == g)
  {
    ElementHasGroup(Employees, DepartmentIdOf, i);
    var keys := GroupKeys(Employees, DepartmentIdOf);
    var g :| 0 <= g < |keys| && keys[g] == Employees[i].departmentId;
    assert Grouped()[g].0 == Employees[i].departmentId;
    forall g | 0 <= g < |Grouped()| && Grouped()[g].0 == Employees[i].departmentId
      ensures forall h :: 0 <= h < |Grouped()| ==> (Employees[i] in Grouped()[h].1 <==> h == g)
    {
      OnlyOneGroup(Employees, DepartmentIdOf, i, g);
    }
  }

  /** Every department id of the fixture names a department; a missing one
      falls back to "Unknown". */
  lemma DepartmentNames()
    ensures DepartmentName(Departments, 1) == "HR"
    ensures DepartmentName(Departments, 2) == "IT"
    ensures DepartmentName(Departments, 3) == "Finance"
    ensures DepartmentName(Departments, 4) == UnknownDepartment
  {
    DepartmentNamesOf(Departments);
  }

  /** The headings over any list holding the fixture's three departments. */
  lemma DepartmentNamesOf(d: seq<Department>)
    requires |d| == 3 && d[0] == Department(1, "HR") && d[1] == Department(2, "IT") && d[2] == Department(3, "Finance")
    ensures DepartmentName(d, 1) == "HR"
    ensures DepartmentName(d, 2) == "IT"
    ensures DepartmentName(d, 3) == "Finance"
    ensures DepartmentName(d, 4) == UnknownDepartment
  {
    assert d[0].id == 1 && d[1].id == 2 && d[2].id == 3;
    assert forall i :: 0 <= i < |d| ==> d[i].id != 4 by {
      forall i | 0 <= i < |d| ensures d[i].id != 4 {
        assert i == 0 || i == 1 || i == 2;
      }
    }
  }

  /** 2. `employees.Join(departments, e => e.DepartmentId, d => d.Id, (e, d) => (e.Name, d.Name))`. */
  function Joined(): seq<(string, string)> {
    Join(Employees, Departments, DepartmentIdOf, IdOf, NamePair)
  }

  function NamePair(e: Employee, d: Department): (string, string) { (e.name, d.name) }

  /** The join pairs an employee with a department exactly when the ids agree. */
  lemma JoinedPairs(z: (string, string))
    ensures z in Joined() <==> exists i, j :: (0 <= i < |Employees| && 0 <= j < |Departments| &&
      Employees[i].departmentId == Departments[j].id && z == (Employees[i].name, Departments[j].name))
  {
    JoinedPairsOf(Employees, Departments, z);
  }

  /** The same over any employees and departments. */
  lemma JoinedPairsOf(e: seq<Employee>, d: seq<Department>, z: (string, string))
    ensures z in Join(e, d, DepartmentIdOf, IdOf, NamePair) <==> exists i, j :: (0 <= i < |e| && 0 <= j < |d| &&
      e[i].departmentId == d[j].id && z == (e[i].name, d[j].name))
  {
    JoinMember(e, d, DepartmentIdOf, IdOf, NamePair, z);
    if z in Join(e, d, DepartmentIdOf, IdOf, NamePair) {
      var i, j :| 0 <= i < |e| && 0 <= j < |d| && DepartmentIdOf(e[i]) == IdOf(d[j]) && z == NamePair(e[i], d[j]);
      assert e[i].departmentId == d[j].id && z == (e[i].name, d[j].name);
    }
    if exists i, j :: 0 <= i < |e| && 0 <= j < |d| && e[i].departmentId == d[j].id && z == (e[i].name, d[j].name) {
      var i, j :| 0 <= i < |e| && 0 <= j < |d| && e[i].departmentId == d[j].id && z == (e[i].name, d[j].name);
      assert DepartmentIdOf(e[i]) == IdOf(d[j]) && z == NamePair(e[i], d[j]);
    }
  }

  /** The join in full: one pair per employee, in employee order, since each
      department id occurs exactly once among the departments. */
  lemma JoinedIs()
    ensures Joined() == [("Amit", "HR"), ("Rohan", "IT"), ("Sneha", "IT"), ("Meera", "Finance"), ("John", "IT")]
  {
    JoinedOf(Employees, Departments);
  }

  /** The names and ids of the fixture that the join depends on. */
  predicate JoinFixture(e: seq<Employee>, d: seq<Department>) {
    && |e| == 5 && |d| == 3
    && d[0] == Department(1, "HR") && d[1] == Department(2, "IT") && d[2] == Department(3, "Finance")
    && e[0].name == "Amit" && e[0].departmentId == 1
    && e[1].name == "Rohan" && e[1].departmentId == 2
    && e[2].name == "Sneha" && e[2].departmentId == 2
    && e[3].name == "Meera" && e[3].departmentId == 3
    && e[4].name == "John" && e[4].departmentId == 2
  }

  /** The join over any lists with the fixture's names and ids. */
  lemma JoinedOf(e: seq<Employee>, d: seq<Department>)
    requires JoinFixture(e, d)
    ensures Join(e, d, DepartmentIdOf, IdOf, NamePair) ==
      [("Amit", "HR"), ("Rohan", "IT"), ("Sneha", "IT"), ("Meera", "Finance"), ("John", "IT")]
  {
    var p0, p1, p2, p3, p4 := ("Amit", "HR"), ("Rohan", "IT"), ("Sneha", "IT"), ("Meera", "Finance"), ("John", "IT");
    JoinedOfLastThree(e, d);
    DepartmentIdsUnique(d);
    assert e[1..][1..] == e[2..];
    JoinedStep(e[1..], d, 1, p1, [p2, p3, p4]);
    Prepend4(p1, p2, p3, p4);
    JoinedStep(e, d, 0, p0, [p1, p2, p3, p4]);
    Prepend5(p0, p1, p2, p3, p4);
  }

  /** Sneha's, Meera's and John's part of the join. */
  lemma JoinedOfLastThree(e: seq<Employee>, d: seq<Department>)
    requires JoinFixture(e, d)
    ensures Join(e[2..], d, DepartmentIdOf, IdOf, NamePair) == [("Sneha", "IT"), ("Meera", "Finance"), ("John", "IT")]
  {
    var p2, p3, p4 := ("Sneha", "IT"), ("Meera", "Finance"), ("John", "IT");
    DepartmentIdsUnique(d);
    assert e[4..][1..] == [] && e[3..][1..] == e[4..] && e[2..][1..] == e[3..];
    JoinedStep(e[4..], d, 1, p4, []);
    assert [p4] + [] == [p4];
    JoinedStep(e[3..], d, 2, p3, [p4]);
    JoinedStep(e[2..], d, 1, p2, [p3, p4]);
    Prepend3(p2, p3, p4);
  }

  /** The fixture's three departments have the ids 1, 2 and 3, so no two
      share an id. */
  lemma DepartmentIdsUnique(d: seq<Department>)
    requires |d| == 3 && d[0] == Department(1, "HR") && d[1] == Department(2, "IT") && d[2] == Department(3, "Finance")
    ensures forall j, m :: 0 <= j < |d| && 0 <= m < |d| && m != j ==> d[m].id != d[j].id
  {
    forall j, m | 0 <= j < |d| && 0 <= m < |d| && m != j
      ensures d[m].id != d[j].id
    {
      assert d[j].id == j + 1 && d[m].id == m + 1;
    }
  }

  lemma Prepend3<T>(a: T, b: T, c: T)
    ensures [a] + [b, c] == [a, b, c]
  {
  }

  lemma Prepend4<T>(a: T, b: T, c: T, x: T)
    ensures [a] + [b, c, x] == [a, b, c, x]
  {
  }

  lemma Prepend5<T>(a: T, b: T, c: T, x: T, y: T)
    ensures [a] + [b, c, x, y] == [a, b, c, x, y]
  {
  }

  /** One employee ahead of the rest of the join: when department `j` is the
      only one with the employee's id, the employee adds exactly that pair. */
  lemma JoinedStep(es: seq<Employee>, ds: seq<Department>, j: nat, pair: (string, string), rest: seq<(string, string)>)
    requires es != [] && j < |ds| && es[0].departmentId == ds[j].id
    requires forall m :: 0 <= m < |ds| && m != j ==> ds[m].id != ds[j].id
    requires pair == (es[0].name, ds[j].name)
    requires Join(es[1..], ds, DepartmentIdOf, IdOf, NamePair) == rest
    ensures Join(es, ds, DepartmentIdOf, IdOf, NamePair) == [pair] + rest
  {
    JoinOneMatch(es, ds, DepartmentIdOf, IdOf, NamePair, j);
  }

  /** 3. `employees.SelectMany(e => e.Skills).Distinct()`. */
  function AllSkills(): seq<string> {
    Distinct(SelectMany(Employees, SkillsOf))
  }

  /** The skill list has no duplicate and holds every employee's every skill. */
  lemma AllSkillsComplete(skill: string)
    ensures NoDuplicates(AllSkills())
    ensures skill in AllSkills() <==> exists i :: 0 <= i < |Employees| && skill in Employees[i].skills
  {
    SelectManyMember(Employees, SkillsOf, skill);
    var flat := SelectMany(Employees, SkillsOf);
    if skill in flat {
      var k :| 0 <= k < |flat| && flat[k] == skill;
    }
    if skill in AllSkills() {
      var k :| 0 <= k < |AllSkills()| && AllSkills()[k] == skill;
    }
  }

  predicate KnowsAngular(e: Employee) { "Angular" in e.skills }
  predicate KnowsCSharp(e: Employee) { "C#" in e.skills }
  predicate HasAnySkill(e: Employee) { e.skills != [] }

  /** 4. `employees.Any(e => e.Skills.Contains("Angular"))`. */
  function HasAngular(): bool {
    Any(Employees, KnowsAngular)
  }

  /** 5. `employees.All(e => e.Skills.Any())`. */
  function AllSkilled(): bool {
    All(Employees, HasAnySkill)
  }

  /** Sneha knows Angular, so `hasAngular` holds. */
  lemma HasAngularHolds()
    ensures HasAngular()
  {
    assert KnowsAngular(Employees[2]);
  }

  /** Everyone has at least one skill, so `allSkilled` holds. */
  lemma AllSkilledHolds()
    ensures AllSkilled()
  {
    assert forall i :: 0 <= i < |Employees| ==> HasAnySkill(Employees[i]) by {
      assert Employees == [Amit, Rohan, Sneha, Meera, John];
    }
  }

  /** The two lines the notebook prints for `hasAngular` and `allSkilled`. */
  lemma AnyAllLines()
    ensures "\nAnyone with Angular? " + (if HasAngular() then "True" else "False") == "\nAnyone with Angular? True"
    ensures "Everyone has skills? " + (if AllSkilled() then "True" else "False") == "Everyone has skills? True"
  {
    HasAngularHolds();
    AllSkilledHolds();
  }

  /** 6. Names of C# people, except names of Angular people. */
  function OnlyCSharp(): seq<string> {
    Except(Select(Where(Employees, KnowsCSharp), NameOf), Select(Where(Employees, KnowsAngular), NameOf))
  }

  /** A name is listed exactly when some C# employee has it and no Angular
      employee does; no name is listed twice. */
  lemma OnlyCSharpMeaning(n: string)
    ensures NoDuplicates(OnlyCSharp())
    ensures n in OnlyCSharp() <==>
      (exists i :: 0 <= i < |Employees| && KnowsCSharp(Employees[i]) && Employees[i].name == n) &&
      !(exists i :: 0 <= i < |Employees| && KnowsAngular(Employees[i]) && Employees[i].name == n)
  {
    var cs := Where(Employees, KnowsCSharp);
    var ang := Where(Employees, KnowsAngular);
    SelectWhereMember(Employees, KnowsCSharp, NameOf, n);
    SelectWhereMember(Employees, KnowsAngular, NameOf, n);
    var names := Select(cs, NameOf);
    if n in OnlyCSharp() {
      var k :| 0 <= k < |OnlyCSharp()| && OnlyCSharp()[k] == n;
    }
    if n in names && n !in Select(ang, NameOf) {
      var k :| 0 <= k < |names| && names[k] == n;
    }
  }

  /** Only Rohan knows C# without Angular. */
  lemma OnlyCSharpIsRohan()
    ensures OnlyCSharp() == ["Rohan"]
  {
    assert Employees[0] == Amit && Employees[1] == Rohan && Employees[2] == Sneha;
    assert Employees[3] == Meera && Employees[4] == John;
    OnlyCSharpOf(Employees);
  }

  /** The names and skills of the fixture that the filter depends on. */
  predicate SkillFixture(e: seq<Employee>) {
    && |e| == 5
    && e[0].name == "Amit" && e[1].name == "Rohan" && e[2].name == "Sneha"
    && e[3].name == "Meera" && e[4].name == "John"
    && !KnowsCSharp(e[0]) && !KnowsCSharp(e[3]) && !KnowsCSharp(e[4])
    && KnowsCSharp(e[1]) && !KnowsAngular(e[1])
    && KnowsCSharp(e[2]) && KnowsAngular(e[2])
  }

  /** The filter over any list with the fixture's names and skills. */
  lemma OnlyCSharpOf(e: seq<Employee>)
    requires SkillFixture(e)
    ensures Except(Select(Where(e, KnowsCSharp), NameOf), Select(Where(e, KnowsAngular), NameOf)) == ["Rohan"]
  {
    var cs := Select(Where(e, KnowsCSharp), NameOf);
    var ang := Select(Where(e, KnowsAngular), NameOf);
    var r := Except(cs, ang);
    SelectWhereMember(e, KnowsCSharp, NameOf, "Rohan");
    SelectWhereMember(e, KnowsAngular, NameOf, "Rohan");
    SelectWhereMember(e, KnowsAngular, NameOf, "Sneha");
    assert NameOf(e[1]) == "Rohan" && NameOf(e[2]) == "Sneha";
    if "Rohan" in ang {
      var i :| 0 <= i < |e| && KnowsAngular(e[i]) && NameOf(e[i]) == "Rohan";
      FixtureNames(e, i);
    }
    var k :| 0 <= k < |cs| && cs[k] == "Rohan";
    assert "Rohan" in r;
    forall m | 0 <= m < |r| ensures r[m] == "Rohan" {
      SelectWhereMember(e, KnowsCSharp, NameOf, r[m]);
      var i :| 0 <= i < |e| && KnowsCSharp(e[i]) && NameOf(e[i]) == r[m];
      FixtureNames(e, i);
    }
    NoDuplicatesSingleton(r, "Rohan");
  }

  /** Rohan and Sneha are the C# employees, and Rohan is the only Rohan. */
  lemma FixtureNames(e: seq<Employee>, i: nat)
    requires SkillFixture(e) && i < |e|
    ensures KnowsCSharp(e[i]) ==> i == 1 || i == 2
    ensures e[i].name == "Rohan" ==> i == 1
  {
    assert i == 0 || i == 1 || i == 2 || i == 3 || i == 4;
  }
}
