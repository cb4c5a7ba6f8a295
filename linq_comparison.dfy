/** Query syntax against method syntax over one integer array, and a
    flattened, de-duplicated list of department skills. */
module LinqComparison {
  import opened Linq

  const Numbers: seq<int> := [3, 6, 1, 4, 8, 5, 2]

  predicate AboveFour(n: int) { n > 4 }
  function Identity(n: int): int { n }

  /** `from n in numbers where n > 4 orderby n select n`: the compiler drops
      the identity select, leaving Where then OrderBy. */
  function QuerySyntax(): seq<int> {
    OrderBy(Where(Numbers, AboveFour), Identity)
  }

  /** `numbers.Where(n => n > 4).OrderBy(n => n).Select(n => n)`. */
  function MethodSyntax(): seq<int> {
    Select(OrderBy(Where(Numbers, AboveFour), Identity), Identity)
  }

  /** The identity projection changes nothing. */
  lemma SelectIdentity(s: seq<int>)
    ensures Select(s, Identity) == s
  {
    assert forall i :: 0 <= i < |s| ==> Select(s, Identity)[i] == s[i];
  }

  /** Both syntaxes give the same sequence. */
  lemma SyntaxesAgree()
    ensures QuerySyntax() == MethodSyntax()
  {
    SelectIdentity(OrderBy(Where(Numbers, AboveFour), Identity));
  }

  /** The result holds each element greater than 4 as often as `numbers`
      does, and nothing else. */
  lemma ResultCounts(n: int)
    ensures multiset(QuerySyntax())[n] == if n > 4 then multiset(Numbers)[n] else 0
  {
    WhereCounts(Numbers, AboveFour, n);
  }

  /** Sorting by the identity key is ascending order. */
  lemma SortedByIdentity(s: seq<int>)
    requires SortedBy(s, Identity)
    ensures Ascending(s)
  {
    assert forall i, j :: 0 <= i < j < |s| ==> Identity(s[i]) <= Identity(s[j]);
  }

  /** The filtered numbers, before sorting. */
  lemma FilteredNumbers()
    ensures Where(Numbers, AboveFour) == [6, 8, 5]
  {
    assert Where([2], AboveFour) == [] by { assert [2][1..] == []; }
    assert Where([5, 2], AboveFour) == [5] by { assert [5, 2][1..] == [2]; }
    assert Where([8, 5, 2], AboveFour) == [8, 5] by { assert [8, 5, 2][1..] == [5, 2]; }
    assert Where([4, 8, 5, 2], AboveFour) == [8, 5] by { assert [4, 8, 5, 2][1..] == [8, 5, 2]; }
    FilteredNumbersHead();
  }

  lemma FilteredNumbersHead()
    requires Where([4, 8, 5, 2], AboveFour) == [8, 5]
    ensures Where(Numbers, AboveFour) == [6, 8, 5]
  {
    assert Where([1, 4, 8, 5, 2], AboveFour) == [8, 5] by { assert [1, 4, 8, 5, 2][1..] == [4, 8, 5, 2]; }
    assert Where([6, 1, 4, 8, 5, 2], AboveFour) == [6, 8, 5] by { assert [6, 1, 4, 8, 5, 2][1..] == [1, 4, 8, 5, 2]; }
    var s := Numbers;
    assert s[1..] == [6, 1, 4, 8, 5, 2];
    assert !AboveFour(s[0]);
    assert Where(s, AboveFour) == Where(s[1..], AboveFour);
  }

  /** Sorting by the identity key yields the one ascending arrangement. */
  lemma OrderByIdentityIs(w: seq<int>, target: seq<int>)
    requires multiset(w) == multiset(target) && Ascending(target)
    ensures OrderBy(w, Identity) == target
  {
    var r := OrderBy(w, Identity);
    SortedByIdentity(r);
    AscendingUnique(r, target);
  }

  /** The program writes 5, 6, 8. */
  lemma ResultIsFiveSixEight()
    ensures QuerySyntax() == [5, 6, 8]
  {
    FilteredNumbers();
    var w := Where(Numbers, AboveFour);
    SameElements(w);
    OrderByIdentityIs(w, [5, 6, 8]);
  }

  lemma SameElements(w: seq<int>)
    requires w == [6, 8, 5]
    ensures multiset(w) == multiset([5, 6, 8]) && Ascending([5, 6, 8])
  {
    assert w == [6] + [8] + [5];
  }

  datatype Department = Department(name: string, skills: seq<string>)

  const Departments: seq<Department> := [
    Department("IT", ["C#", "SQL"]),
    Department("HR", ["Excel", "PeopleMgmt"])]

  function SkillsOf(d: Department): seq<string> { d.skills }

  /** `departments.SelectMany(d => d.Skills).Distinct()`. */
  function AllSkills(): seq<string> {
    Distinct(SelectMany(Departments, SkillsOf))
  }

  /** Every skill of every department is listed, each once, and nothing else is. */
  lemma AllSkillsComplete(skill: string)
    ensures NoDuplicates(AllSkills())
    ensures skill in AllSkills() <==> exists d :: 0 <= d < |Departments| && skill in Departments[d].skills
  {
    SelectManyMember(Departments, SkillsOf, skill);
    var flat := SelectMany(Departments, SkillsOf);
    if skill in flat {
      var k :| 0 <= k < |flat| && flat[k] == skill;
    }
    if skill in AllSkills() {
      var k :| 0 <= k < |AllSkills()| && AllSkills()[k] == skill;
    }
  }

  /** The program lists C#, SQL, Excel and PeopleMgmt. */
  lemma AllSkillsListed()
    ensures AllSkills() == ["C#", "SQL", "Excel", "PeopleMgmt"]
  {
    var flat := ["C#", "SQL", "Excel", "PeopleMgmt"];
    assert SelectMany(Departments[1..], SkillsOf) == ["Excel", "PeopleMgmt"] by {
      assert Departments[1..][1..] == [];
    }
    assert SelectMany(Departments, SkillsOf) == flat;
    assert NoDuplicates(flat);
    DistinctOfDistinct(flat);
  }
}
