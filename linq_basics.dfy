/** The LINQ basics notebook: Where, Select, OrderByDescending, Count and
    FirstOrDefault over a fixed list of five employees. */
module LinqBasics {
  import opened Wrappers
  import opened Linq

  /** Salaries are whole numbers in every fixture, so they are ints here. */
  datatype Employee = Employee(id: int, name: string, age: int, salary: int)

  const Amit := Employee(1, "Amit", 30, 60000)
  const Rohan := Employee(2, "Rohan", 24, 45000)
  const Sneha := Employee(3, "Sneha", 29, 75000)
  const John := Employee(4, "John", 35, 55000)
  const Meera := Employee(5, "Meera", 22, 40000)

  const Employees: seq<Employee> := [Amit, Rohan, Sneha, John, Meera]

  predicate OlderThan25(e: Employee) { e.age > 25 }
  predicate EarnsOver70k(e: Employee) { e.salary > 70000 }
  function NameOf(e: Employee): string { e.name }
  function SalaryOf(e: Employee): int { e.salary }

  function Filtered(): seq<Employee> {
    Where(Employees, OlderThan25)
  }

  function Names(): seq<string> {
    Select(Employees, NameOf)
  }

  function Sorted(): seq<Employee> {
    OrderByDescending(Employees, SalaryOf)
  }

  function HighEarner(): Option<Employee> {
    FirstOrDefault(Employees, EarnsOver70k)
  }

  /** Where over the last three employees. */
  lemma FilteredTail()
    ensures Where([Sneha, John, Meera], OlderThan25) == [Sneha, John]
  {
    assert Where([Meera], OlderThan25) == [] by {
      assert [Meera][1..] == [];
    }
    assert Where([John, Meera], OlderThan25) == [John] by {
      assert [John, Meera][1..] == [Meera];
    }
    assert [Sneha, John, Meera][1..] == [John, Meera];
  }

  /** `filtered` is Amit, Sneha and John, in list order. */
  lemma FilteredEmployees()
    ensures Filtered() == [Amit, Sneha, John]
  {
    FilteredTail();
    assert Where([Rohan, Sneha, John, Meera], OlderThan25) == [Sneha, John] by {
      assert [Rohan, Sneha, John, Meera][1..] == [Sneha, John, Meera];
    }
    var e := Employees;
    assert e[1..] == [Rohan, Sneha, John, Meera];
    assert OlderThan25(e[0]) && e[0] == Amit;
    assert Where(e, OlderThan25) == [Amit] + Where(e[1..], OlderThan25);
  }

  /** `filtered` holds exactly the employees older than 25. */
  lemma FilteredExactly(e: Employee)
    ensures e in Filtered() <==> e in Employees && e.age > 25
  {
    WhereMember(Employees, OlderThan25, e);
  }

  /** `names` has one entry per employee, in list order. */
  lemma NamesInOrder()
    ensures |Names()| == |Employees|
    ensures forall i :: 0 <= i < |Employees| ==> Names()[i] == Employees[i].name
    ensures Names() == ["Amit", "Rohan", "Sneha", "John", "Meera"]
  {
  }

  /** `sorted` is a rearrangement of the list with non-increasing salaries. */
  lemma SortedBySalary()
    ensures multiset(Sorted()) == multiset(Employees)
    ensures forall i, j :: 0 <= i < j < |Sorted()| ==> Sorted()[i].salary >= Sorted()[j].salary
  {
  }

  /** The first employee earning more than 70000 is Sneha. */
  lemma HighEarnerIsSneha()
    ensures HighEarner() == Some(Sneha)
  {
    var p := EarnsOver70k;
    assert !p(Employees[0]) && !p(Employees[1]) && p(Employees[2]);
    var r := HighEarner();
    assert r.Some?;
    var i :| 0 <= i < |Employees| && Employees[i] == r.value && p(Employees[i]) &&
      forall j :: 0 <= j < i ==> !p(Employees[j]);
    assert i == 2;
  }

  /** Raising the bar above every salary leaves `highEarner` null. */
  lemma NoHighEarnerAbove(bar: int)
    requires bar >= 75000
    ensures FirstOrDefault(Employees, (e: Employee) => e.salary > bar) == None
  {
  }
}
