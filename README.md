# PracticeProgram in Dafny

PracticeProgram is a C# console notebook. A menu maps the keys "1" to "16"
to short demos. This project models:

- the menu dispatcher in `Program.cs`: table construction, the
  whitespace check, `Trim`, the exit key `"0"` and the `TryGetValue`
  lookup;
- the demos whose behaviour can be stated as contracts:
  - `BankAccount` and its guarded `Deposit`/`Withdraw`;
  - the `Thermometer` event and its `AlarmSystem` subscriber;
  - the static versus instance counter;
  - the `Person_Ctor` constructors and the `Utility` static constructor;
  - `ValidateAge` with `InvalidAgeException`;
  - the `Func<T>` and `Predicate<T>` lambdas, together with
    `List<int>.Find` and `List<int>.RemoveAll`;
  - the LINQ examples;
  - value-type copying versus array aliasing.

Layout, one module per file:

| file | module | what it models |
|---|---|---|
| `wrappers.dfy` | `Wrappers` | `Option` and `Result` |
| `int32.dfy` | `Int32` | C# `int` arithmetic, which wraps (unchecked context) |
| `text.dfy` | `Text` | the string operations the programs use: int formatting, `string.Join`, `char.IsWhiteSpace`, `Trim`, ordinal case-insensitive comparison, reversal, the UTF-16 `Length` |
| `linq.dfy` | `Linq` | the LINQ operators as functions on sequences |
| the other files | one each | one source file each |

State-changing code is modelled in the same form:

- classes whose methods update their fields, with `modifies` clauses:
  `BankAccount`, `Thermometer`, `Counter` with its shared `StaticCount`,
  `Utility` and `IntList`;
- `Person`, a class whose fields only its constructors set;
- methods with loops: the menu loop, `Find`, `RemoveAll` and the menu
  rendering.

`Find`, `RemoveAll`, the menu loop and the state-changing class methods
are proved against specification functions (`FirstOrDefault`, `Where`,
`Rounds`, `Step`, `Broadcast`, `CountAfter`, `UtilityTrace`), and the
properties are proved about those functions. `RenderMenu` states its
output line by line in its own postcondition.

Static state lives as long as the process. The demos that touch it,
`StaticVsInstanceDemo` and `ConstructorsDemo`, take the shared
`StaticCount` and `Utility` as parameters, so a second run continues from
what the first left behind.

## Model

| member | source | states |
|---|---|---|
| Int32.Wrap | Day02_OOP_StaticVsInstance.cs:8-13 | the result is a 32-bit int congruent to the input modulo 2^32, and an input already in range is unchanged |
| Int32.Add | Day03_Func.cs:36 | 32-bit addition: exact when the sum fits, otherwise off by exactly 2^32 in the direction of the overflow |
| Text.DigitChar | Day03_Func.cs:38 | the character rendered for a digit is a digit whose value is that digit |
| Text.NatToString | Day04_LINQComparison.cs:54 | a non-negative int renders as decimal digits without a leading zero, one digit exactly below 10 |
| Text.NatToStringRoundTrip | Day04_LINQComparison.cs:54 | reading back the rendered digits gives the number |
| Text.NatToStringInjective | Program.cs:14-29 | different numbers render differently, so the keys "1" to "16" are distinct |
| Text.IntToString | Day03_Func.cs:38 | an int renders as a '-' exactly when it is negative, followed by the digits of its magnitude with no leading zero |
| Text.Join | Day03_Func.cs:52 | `string.Join`: empty for no parts; the part itself for one part; otherwise the parts' lengths plus one separator between every two parts |
| Text.JoinSnoc | Day03_Predicate.cs:47 | joining one more part appends the separator and that part |
| Text.TrimStart | Program.cs:52 | drops a leading run of whitespace and stops at the first non-whitespace character |
| Text.TrimEnd | Program.cs:52 | drops a trailing run of whitespace and stops at the last non-whitespace character |
| Text.TrimOffset | Program.cs:52 | the number of characters cut from the front lies within the string |
| Text.TrimSpec | Program.cs:52 | `Trim` returns a contiguous part of the input, and everything cut from either side is whitespace |
| Text.TrimMaximal | Program.cs:52 | the trimmed result neither starts nor ends with whitespace |
| Text.TrimEmptyIffBlank | Program.cs:46-52 | trimming gives the empty string exactly when the input is all whitespace |
| Text.TrimSurrounded | Program.cs:52 | whitespace around a word with non-whitespace ends trims back to that word |
| Text.TrimStartSkips | Program.cs:52 | a whitespace prefix before a non-whitespace character is removed exactly |
| Text.TrimEndSkips | Program.cs:52 | a whitespace suffix after a non-whitespace character is removed exactly |
| Text.TrimIdempotent | Program.cs:52 | trimming twice is trimming once |
| Text.ToUpperOrdinal | Day03_Func.cs:44 | ordinal upper-casing maps 'a'..'z' to 'A'..'Z' and leaves every other character alone |
| Text.Reverse | Day03_Func.cs:43 | reversal keeps the length and puts the character at i into position length-1-i |
| Text.ReverseReverse | Day03_Func.cs:43 | reversing twice gives back the text |
| Text.Utf16Units | Day03_Predicate.cs:35 | a character takes one UTF-16 code unit exactly when it lies in the Basic Multilingual Plane, and two otherwise |
| Text.Utf16Length | Day03_Predicate.cs:35 | `Length` is at least the number of characters and at most twice it |
| Text.Utf16LengthAppend | Day03_Predicate.cs:35 | the `Length` of a concatenation is the sum of the parts' |
| Text.Utf16LengthIsLength | Day03_Predicate.cs:35 | `Length` equals the number of characters exactly when every character lies in the Basic Multilingual Plane |
| Menu.Register | Program.cs:11-30 | collection-initializer `Dictionary.Add`: it succeeds exactly when no key repeats, and the table then has exactly the entries' keys, one per entry |
| Menu.RegisterMapsEntries | Program.cs:11-30 | a successful registration maps each entry's key to that entry's label and action |
| Menu.KeysOfMember | Program.cs:11-30 | every key in the table comes from some entry |
| Menu.NumberedKeysDistinct | Program.cs:14-29 | entries keyed "1", "2", ... in order never repeat a key |
| Menu.TopicsTable | Program.cs:11-30 | the program's table builds without an exception; it has 16 entries keyed "1" to "16" with their labels and actions, and "0" is not a key |
| Menu.TopicKeyNumbered | Program.cs:14-29 | every key of the table is the rendering of a number from 1 to 16 |
| Menu.Classify | Program.cs:44-68 | a run decision names a key of the table together with that key's own entry |
| Menu.BlankIsInvalid | Program.cs:46-50 | a null, empty or whitespace-only line is invalid and runs nothing |
| Menu.ExitIff | Program.cs:52-58 | a line exits exactly when it is non-null and trims to "0" |
| Menu.RunIff | Program.cs:52-64 | a line runs a demo exactly when it trims to a non-empty key of the table other than "0"; the demo run is that key's entry |
| Menu.InvalidIff | Program.cs:46-68 | a line is invalid exactly when it is null, when it trims to the empty string, or when its trimmed form is neither "0" nor a key |
| Menu.ClassifyTrimmed | Program.cs:52 | only the trimmed line matters: classifying a line equals classifying its trim |
| Menu.SurroundingWhiteSpaceIgnored | Program.cs:52-60 | whitespace around a key does not change the decision |
| Menu.KeySelectable | Program.cs:60-64 | a key with non-whitespace ends, other than "0", typed as is, runs its own entry |
| Menu.EveryTopicSelectable | Program.cs:60-64 | each of the 16 keys, typed as shown, runs exactly its own demo |
| Menu.PaddedKeySelects | Program.cs:52-60 | " 2 " selects key "2" |
| Menu.Respond | Program.cs:46-68 | a round invokes a demo exactly on a run decision; it prints the invalid-choice message exactly on an invalid line, and "Exiting..." exactly on exit |
| Menu.Transcript | Program.cs:34-69 | each round shows the menu and then responds, in round order |
| Menu.Rounds | Program.cs:34-69 | one decision per line read, in order; no round before the last exits; if lines remain unread, the last round exited |
| Menu.RoundsLength | Program.cs:54-58 | the loop reads exactly up to and including the first exiting line |
| Menu.RoundsUnique | Program.cs:34-69 | any run of decisions meeting the contract of `Rounds` is the one `Rounds` gives |
| Menu.Dispatch | Program.cs:32-69 | `Main`'s loop over the program's table yields the session's decisions and its transcript; it reports an exit exactly when the last decision was exit, and otherwise it has consumed every line |
| Menu.Serve | Program.cs:34-69 | the loop, for any decision rule, produces `Rounds` of the lines and its transcript |
| Menu.RenderMenu | Program.cs:36-39 | each key of the table is listed exactly once as "key. label", in some order, followed by "0. Exit" |
| Encapsulation.Step | Day02_OOP_Encapsulation.cs:11-25 | a deposit or withdrawal keeps the balance within decimal's range; only a positive deposit that overflows the decimal maximum fails; a deposit never lowers the balance and a withdrawal never raises it |
| Encapsulation.StepIdleIff | Day02_OOP_Encapsulation.cs:11-25 | a call leaves the balance unchanged exactly when the amount is not positive, or exceeds the balance on a withdrawal |
| Encapsulation.StepMovesByAmount | Day02_OOP_Encapsulation.cs:11-25 | an accepted call moves the balance by exactly the amount |
| Encapsulation.ReplayStaysInRange | Day02_OOP_Encapsulation.cs:7-25 | no sequence of calls takes the balance outside 0 to the decimal maximum, so it is never negative |
| Encapsulation.ReplayAppend | Day02_OOP_Encapsulation.cs:11-25 | replaying two runs of calls one after the other is replaying their concatenation |
| Encapsulation.BankAccount.constructor | Day02_OOP_Encapsulation.cs:7-9 | a new account has balance 0 and no holder |
| Encapsulation.BankAccount.SetHolder | Day02_OOP_Encapsulation.cs:9 | sets the holder and nothing else |
| Encapsulation.BankAccount.Deposit | Day02_OOP_Encapsulation.cs:11-17 | the new balance is `Step` of the old one; it reports when decimal addition would overflow |
| Encapsulation.BankAccount.Withdraw | Day02_OOP_Encapsulation.cs:19-25 | the new balance is `Step` of the old one |
| Encapsulation.BankAccount.GetBalance | Day02_OOP_Encapsulation.cs:27-30 | returns the balance, which is in range |
| Encapsulation.EncapsulationDemo | Day02_OOP_Encapsulation.cs:40-46 | the demo prints "Balance for Rohan is: 700" |
| Encapsulation.DemoReplay | Day02_OOP_Encapsulation.cs:43-44 | depositing 1000 and then withdrawing 300 from 0 leaves 700 |
| Events.SetMessage | Day03_Events.cs:24 | the line the thermometer prints is "Temperature set to ", then the rendered temperature, then "°C" |
| Events.Alert | Day03_Events.cs:37-43 | the alarm reports overheat exactly above 50, and the safe range exactly at or below 50 |
| Events.AlertBoundary | Day03_Events.cs:39 | 50 is safe and 51 overheats |
| Events.BroadcastSnoc | Day03_Events.cs:28 | raising the event after subscribing one more handler emits the earlier output followed by that handler's output |
| Events.BroadcastEach | Day03_Events.cs:28 | with one-line handlers, the i-th line is the i-th subscriber's line |
| Events.Thermometer.constructor | Day03_Events.cs:10-17 | a new thermometer reads 0 and has no subscribers |
| Events.Thermometer.Subscribe | Day03_Events.cs:58 | `+=` appends the handler |
| Events.Thermometer.SetTemperature | Day03_Events.cs:19-30 | the temperature becomes t; an unchanged temperature prints nothing and raises nothing; a changed one prints the set line and then every subscriber's output in subscription order |
| Events.EventsDemo | Day03_Events.cs:53-62 | the demo prints "Temperature set to 45°C", "Temperature within safe range", "Temperature set to 60°C", "Alert: Overheat detected" |
| Events.FreshZeroIsSilent | Day03_Events.cs:12-21 | setting a fresh thermometer to its default 0 prints nothing |
| StaticVsInstance.StaticCount.constructor | Day02_OOP_StaticVsInstance.cs:8 | the shared count starts at 0 |
| StaticVsInstance.CountAfterWraps | Day02_OOP_StaticVsInstance.cs:13 | n increments take the shared count to start + n, 32-bit wrapped |
| StaticVsInstance.WrapSucc | Day02_OOP_StaticVsInstance.cs:13 | incrementing a wrapped value is wrapping the incremented value |
| StaticVsInstance.WrapShift | Day02_OOP_StaticVsInstance.cs:13 | wrapping ignores multiples of 2^32 |
| StaticVsInstance.CountFromZero | Day02_OOP_StaticVsInstance.cs:24-31 | from 0, n constructions (n up to int.MaxValue) leave the shared count at exactly n |
| StaticVsInstance.Counter.constructor | Day02_OOP_StaticVsInstance.cs:10-14 | a new counter's own count is 1, and the shared count goes up by one |
| StaticVsInstance.StaticVsInstanceDemo | Day02_OOP_StaticVsInstance.cs:24-31 | each of the three objects reports instance count 1, and the shared count read after each construction is one, two and three increments past its value before the run |
| StaticVsInstance.TwoRuns | Program.cs:60-64 | running the demo twice in one session reports static counts 1, 2, 3 and then 4, 5, 6 |
| StaticVsInstance.DemoFirstLine | Day02_OOP_StaticVsInstance.cs:25 | the first report line is "Object 1 - InstanceCount: 1, StaticCount: 1" |
| StaticVsInstance.ConstructMany | Day02_OOP_StaticVsInstance.cs:10-14 | n constructions raise the shared count by n; every counter made is distinct and still has its own count 1 |
| Constructors.InfoLineShape | Day02_OOP_Constructors.cs:32 | `PrintInfo`'s line is the name, " is ", the rendered age and " years old." |
| Constructors.Person.Default | Day02_OOP_Constructors.cs:11-15 | the default constructor sets "Unknown" and 0 |
| Constructors.Person.constructor | Day02_OOP_Constructors.cs:18-22 | the parameterised constructor stores the name and the age |
| Constructors.Person.WithName | Day02_OOP_Constructors.cs:25-28 | the chained constructor stores the name and age 18 |
| Constructors.Person.PrintInfo | Day02_OOP_Constructors.cs:30-33 | prints the info line of the current name and age |
| Constructors.StaticRunsOnceFirst | Day02_OOP_Constructors.cs:39-47 | n calls of `SayHello` print the static constructor's message once, before the first hello, followed by n hellos |
| Constructors.Utility.constructor | Day02_OOP_Constructors.cs:36-48 | before the first use nothing has been printed and the type is not initialised |
| Constructors.Utility.SayHello | Day02_OOP_Constructors.cs:39-47 | the first call prints the static constructor's message and then the hello; later calls print only the hello |
| Constructors.ConstructorsDemo | Day02_OOP_Constructors.cs:57-66 | the demo prints the info lines of "Unknown" aged 0, "Rohan" aged 30 and "Gatha" aged 18, then the static message only if `Utility` was not used before, then the hello |
| Constructors.TwoRuns | Program.cs:60-64 | running the demo twice in one session prints the static message in the first run only |
| Constructors.GathaLine | Day02_OOP_Constructors.cs:63-64 | chaining gives "Gatha is 18 years old." |
| ExceptionHandling.ValidateAge | Day04_ExceptionHandling.cs:129-136 | throws `InvalidAgeException("Age must be 18 or older.")` exactly when age < 18; otherwise prints "Valid age: " followed by the age's decimal rendering, with no leading zero, which reads back as the age |
| ExceptionHandling.ValidateAgeBoundary | Day04_ExceptionHandling.cs:131 | 18 is valid and 17 throws |
| ExceptionHandling.DemoOutput | Day04_ExceptionHandling.cs:117-125 | the try/catch prints one line: the caught exception's message for an invalid age, or exactly "Valid age: " and the rendered age |
| ExceptionHandling.DemoFifteen | Day04_ExceptionHandling.cs:120-124 | validating 15 prints "Custom exception caught: Age must be 18 or older." |
| FuncExamples.AddInts | Day03_Func.cs:36 | `add` is 32-bit addition: in range and congruent to the true sum |
| FuncExamples.AddExact | Day03_Func.cs:36-37 | a sum that fits is exact |
| FuncExamples.SumLine | Day03_Func.cs:37-38 | prints "Sum of 5 and 7 is 12" |
| FuncExamples.PalindromeMirrors | Day03_Func.cs:41-45 | the palindrome test holds exactly when each character matches its mirror image, ignoring case |
| FuncExamples.PalindromeOfReverse | Day03_Func.cs:41-45 | a text and its reversal pass or fail the test together |
| FuncExamples.LevelIsPalindrome | Day03_Func.cs:46 | "level" is a palindrome, and so is "Level" |
| FuncExamples.PalindromeLine | Day03_Func.cs:46 | the demo prints "Is 'level' palindrome? True" |
| FuncExamples.NotPalindrome | Day03_Func.cs:41-45 | "ab" is not a palindrome |
| FuncExamples.Square | Day03_Func.cs:50 | `square` is the 32-bit int congruent to n*n modulo 2^32, so exact when n*n fits |
| FuncExamples.SquareWraps | Day03_Func.cs:50 | past 46340 the square wraps: 46341 squares to -2147479015 and 65536 to 0 |
| FuncExamples.SquareFits | Day03_Func.cs:50 | n*n fits an int for a magnitude up to 46340 |
| FuncExamples.SquaresPointwise | Day03_Func.cs:51 | `Select(square)` keeps the length and squares each element |
| FuncExamples.SquaresOfData | Day03_Func.cs:49-51 | the squares of {1, 2, 3, 4} are 1, 4, 9, 16 |
| FuncExamples.SquaresLine | Day03_Func.cs:52 | prints "Squares: 1, 4, 9, 16" |
| FuncExamples.JoinFour | Day03_Func.cs:52 | joining "1", "4", "9", "16" with ", " gives "1, 4, 9, 16" |
| PredicateExamples.LongWordMeaning | Day03_Predicate.cs:35 | for a word of the Basic Multilingual Plane the test is "more than five characters"; a word of three emoji, six code units, is long |
| PredicateExamples.ElephantIsLong | Day03_Predicate.cs:36 | "Elephant" is a long word |
| PredicateExamples.Rem2 | Day03_Predicate.cs:40-45 | C#'s `x % 2` is -1, 0 or 1; it is 0 exactly when x is even; it equals the mathematical remainder for x >= 0 and is never positive for x < 0 |
| PredicateExamples.OddIffNotEven | Day03_Predicate.cs:40-45 | `isOdd` is exactly `!isEven` for every int; `isEven` is divisibility by 2; a negative odd number has remainder -1 |
| PredicateExamples.IntList.constructor | Day03_Predicate.cs:39 | the list holds the initializer's elements in order |
| PredicateExamples.IntList.Find | Day03_Predicate.cs:41 | returns the first element satisfying the predicate, or 0 when none does; the list is not modified |
| PredicateExamples.IntList.RemoveAll | Day03_Predicate.cs:46 | in place, the list becomes its old elements that fail the predicate, in their original order; the count returned is the number that satisfied it |
| PredicateExamples.WhereSplitsLength | Day03_Predicate.cs:46 | every element either satisfies the predicate or fails it, so the kept and removed counts add up to the length |
| PredicateExamples.RemoveAllMeaning | Day03_Predicate.cs:45-46 | after removal no remaining element satisfies the predicate, and an element remains exactly when it was there and fails it |
| PredicateExamples.FirstEvenIsTwo | Day03_Predicate.cs:39-42 | the first even number of {1, 2, 4, 7, 9} is 2 |
| PredicateExamples.EvensRemain | Day03_Predicate.cs:45-46 | removing the odd numbers from {1, 2, 4, 7, 9} leaves 2, 4 |
| PredicateExamples.AfterRemovalLine | Day03_Predicate.cs:47 | the list 2, 4 joins to "2, 4" |
| PredicateExamples.PredicateDemo | Day03_Predicate.cs:35-47 | the demo prints "Is 'Elephant' a long word? True", "First even number: 2", "After removing odds: 2, 4" |
| Linq.Where | Day04_LINQBasics.cs:49 | `Where` returns no more elements than it is given, and each one satisfies the predicate |
| Linq.WhereCounts | Day04_LINQBasics.cs:49 | `Where` keeps every occurrence of a satisfying element and drops every other |
| Linq.WhereMember | Day04_LINQBasics.cs:49 | an element is in the result exactly when it is in the input and satisfies the predicate |
| Linq.WhereAppend | Day04_LINQBasics.cs:49 | `Where` distributes over concatenation, so it keeps relative order |
| Linq.Select | Day04_LINQBasics.cs:55 | `Select` keeps the length and maps position by position |
| Linq.SelectWhereMember | Day04_LINQAdvanced.cs:97-98 | a value is among the projected, filtered elements exactly when an element satisfying the filter projects to it |
| Linq.SelectManyMember | Day04_LINQAdvanced.cs:83 | a value is in the flattened sequence exactly when some element's collection contains it |
| Linq.Distinct | Day04_LINQAdvanced.cs:83 | `Distinct` has no duplicates, holds exactly the input's elements, and is no longer than the input |
| Linq.NoDuplicatesSingleton | Day04_LINQAdvanced.cs:99 | a duplicate-free sequence containing x and only x is [x] |
| Linq.DistinctOfDistinct | Day04_LINQComparison.cs:87 | `Distinct` of a duplicate-free sequence changes nothing |
| Linq.InsertBy | Day04_LINQComparison.cs:66 | inserting into a sorted sequence keeps it sorted and adds exactly the one element |
| Linq.OrderBy | Day04_LINQComparison.cs:66 | `OrderBy` is sorted by the key and is a permutation of the input |
| Linq.OrderByDescending | Day04_LINQBasics.cs:60 | `OrderByDescending` has non-increasing keys and is a permutation of the input |
| Linq.AscendingUnique | Day04_LINQComparison.cs:64-66 | two ascending integer sequences with the same elements are equal, so the sorted output is determined |
| Linq.FirstIndex | Day04_LINQBasics.cs:71 | gives the index of the first element satisfying the predicate, or nothing when no element does |
| Linq.FirstOrDefault | Day04_LINQBasics.cs:71 | gives the first satisfying element, or null when no element satisfies the predicate |
| Linq.Any | Day04_LINQAdvanced.cs:89 | holds exactly when some element satisfies the predicate |
| Linq.All | Day04_LINQAdvanced.cs:93 | holds exactly when every element satisfies the predicate, so it holds on an empty sequence |
| Linq.AllIsNotAnyNot | Day04_LINQAdvanced.cs:89-93 | `All` is the negation of `Any` of the negated predicate |
| Linq.Except | Day04_LINQAdvanced.cs:99 | `Except` is duplicate-free; it holds only elements of the first sequence that are absent from the second, and all of them |
| Linq.JoinMember | Day04_LINQAdvanced.cs:71-76 | a result of the join comes from an outer and an inner element with equal keys, and every such pair contributes |
| Linq.JoinAppend | Day04_LINQAdvanced.cs:71-76 | the join of concatenated outer sequences is the concatenation of their joins, so results come in outer order |
| Linq.JoinOneMatch | Day04_LINQAdvanced.cs:71-76 | an outer element with exactly one matching inner element contributes exactly one result, before the rest |
| Linq.WhereOnly | Day04_LINQBasics.cs:49 | a filter that exactly one element satisfies keeps exactly that element |
| Linq.WhereNone | Day04_LINQBasics.cs:49 | a filter that no element satisfies keeps nothing |
| Linq.GroupBy | Day04_LINQAdvanced.cs:60 | one group per distinct key in order of first appearance; no two groups share a key, no group is empty, a group holds only elements of the source with its key, and every element is in the group of its key |
| Linq.GroupMember | Day04_LINQAdvanced.cs:60 | an element is in the group of key k exactly when its key is k |
| Linq.GroupNonEmpty | Day04_LINQAdvanced.cs:60 | no group is empty |
| Linq.ElementHasGroup | Day04_LINQAdvanced.cs:60 | every element's key is a group key |
| Linq.OnlyOneGroup | Day04_LINQAdvanced.cs:60 | an element lies in its key's group and in no other |
| LinqBasics.FilteredEmployees | Day04_LINQBasics.cs:39-52 | the employees older than 25 are Amit, Sneha and John, in list order |
| LinqBasics.FilteredExactly | Day04_LINQBasics.cs:49 | `filtered` holds exactly the employees older than 25 |
| LinqBasics.FilteredTail | Day04_LINQBasics.cs:43-49 | of Sneha, John and Meera, Sneha and John are older than 25 |
| LinqBasics.NamesInOrder | Day04_LINQBasics.cs:55-57 | the names are Amit, Rohan, Sneha, John, Meera, one per employee in order |
| LinqBasics.SortedBySalary | Day04_LINQBasics.cs:60-63 | `sorted` is a rearrangement of the employees with non-increasing salaries |
| LinqBasics.HighEarnerIsSneha | Day04_LINQBasics.cs:71-72 | the first employee earning more than 70000 is Sneha |
| LinqBasics.NoHighEarnerAbove | Day04_LINQBasics.cs:71 | a bar of 75000 or more leaves `FirstOrDefault` null |
| LinqComparison.SelectIdentity | Day04_LINQComparison.cs:67 | the identity `Select` changes nothing |
| LinqComparison.SyntaxesAgree | Day04_LINQComparison.cs:47-67 | query syntax and method syntax give the same sequence |
| LinqComparison.ResultCounts | Day04_LINQComparison.cs:47-50 | the result holds each number greater than 4 as often as the array does, and nothing else |
| LinqComparison.SortedByIdentity | Day04_LINQComparison.cs:49 | sorting by the number itself yields ascending order |
| LinqComparison.FilteredNumbers | Day04_LINQComparison.cs:44-48 | the numbers greater than 4 are 6, 8, 5 in array order |
| LinqComparison.OrderByIdentityIs | Day04_LINQComparison.cs:49 | sorting by the identity key yields the one ascending arrangement of the elements |
| LinqComparison.ResultIsFiveSixEight | Day04_LINQComparison.cs:52-71 | both queries print 5, 6, 8 |
| LinqComparison.AllSkillsComplete | Day04_LINQComparison.cs:87 | every department skill is listed, each once, and nothing else is |
| LinqComparison.AllSkillsListed | Day04_LINQComparison.cs:81-91 | the skills are C#, SQL, Excel, PeopleMgmt |
| LinqAdvanced.DepartmentName | Day04_LINQAdvanced.cs:64 | the heading is the name of the first department with the group's id, or "Unknown" when there is none |
| LinqAdvanced.GroupedPartition | Day04_LINQAdvanced.cs:60-68 | every employee lies in exactly one group, the one keyed by its department id |
| LinqAdvanced.DepartmentNames | Day04_LINQAdvanced.cs:43-64 | ids 1, 2, 3 name HR, IT and Finance, and a missing id falls back to "Unknown" |
| LinqAdvanced.JoinedPairs | Day04_LINQAdvanced.cs:71-76 | the join pairs an employee's name with a department's name exactly when the ids agree |
| LinqAdvanced.JoinedIs | Day04_LINQAdvanced.cs:71-80 | the join is exactly (Amit, HR), (Rohan, IT), (Sneha, IT), (Meera, Finance), (John, IT): one pair per employee, in employee order |
| LinqAdvanced.AllSkillsComplete | Day04_LINQAdvanced.cs:83 | the skill list has no duplicate and holds every skill of every employee |
| LinqAdvanced.HasAngularHolds | Day04_LINQAdvanced.cs:89 | someone knows Angular |
| LinqAdvanced.AllSkilledHolds | Day04_LINQAdvanced.cs:93 | every employee has a skill |
| LinqAdvanced.AnyAllLines | Day04_LINQAdvanced.cs:89-94 | the notebook prints "Anyone with Angular? True" and "Everyone has skills? True" |
| LinqAdvanced.OnlyCSharpMeaning | Day04_LINQAdvanced.cs:97-99 | a name is listed exactly when some C# employee has it and no Angular employee does, and only once |
| LinqAdvanced.OnlyCSharpIsRohan | Day04_LINQAdvanced.cs:97-103 | the only name with C# but not Angular is Rohan |
| ValueVsReference.ValueVsReferenceDemo | Day01_ValueVsReference.cs:12-21 | after `b = a; b = 20` a is still 10; arr2 is the same array as arr1, so both read 99 at index 0 while index 1 stays 2; the lines print those values |

## Definitions

These definitions carry no contract of their own; the lemmas named state
their properties.

| definition | source | properties proved in |
|---|---|---|
| PredicateExamples.LongWord | Day03_Predicate.cs:35 | PredicateExamples.LongWordMeaning, PredicateExamples.ElephantIsLong |
| PredicateExamples.IsEven | Day03_Predicate.cs:40 | PredicateExamples.Rem2, PredicateExamples.OddIffNotEven, PredicateExamples.FirstEvenIsTwo |
| PredicateExamples.IsOdd | Day03_Predicate.cs:45 | PredicateExamples.OddIffNotEven, PredicateExamples.EvensRemain |
| Linq.Join | Day04_LINQAdvanced.cs:71-76 | Linq.JoinMember, Linq.JoinAppend, Linq.JoinOneMatch, LinqAdvanced.JoinedIs |
| Linq.SelectMany | Day04_LINQAdvanced.cs:83 | Linq.SelectManyMember, LinqAdvanced.AllSkillsComplete |
| Text.Trim | Program.cs:52 | Text.TrimSpec, Text.TrimMaximal, Text.TrimEmptyIffBlank, Text.TrimIdempotent |
| FuncExamples.IsPalindrome | Day03_Func.cs:41-45 | FuncExamples.PalindromeMirrors, FuncExamples.PalindromeOfReverse |
| Events.Broadcast | Day03_Events.cs:28 | Events.BroadcastSnoc, Events.BroadcastEach |
| LinqAdvanced.Grouped | Day04_LINQAdvanced.cs:60 | LinqAdvanced.GroupedPartition |
| LinqAdvanced.Joined | Day04_LINQAdvanced.cs:71-76 | LinqAdvanced.JoinedPairs, LinqAdvanced.JoinedIs |

## Left out

- Console I/O is not modelled as such:
  - `ReadLine` results are an input sequence, with null as `None`;
  - the menu prompt is one `MenuShown` event;
  - the blank lines and headings the demos print are not modelled.
- A `ReadLine` that returns null at end of input is an invalid line, as in the source, which keeps looping. The model stops when the input runs out and reports that no exit happened.
- What the 16 demos do when the menu runs them is not modelled. The dispatcher sees each as an opaque `Demo` token, and exceptions a demo throws are outside its contract.
- Menu.RenderMenu: the order of the menu lines is not fixed, because `Dictionary` enumeration order is unspecified. The model allows any order.
- Events: temperatures are `double` in the source. The model uses `int`, which covers the integral demo values, so NaN and floating-point comparison are not modelled.
- Events.Thermometer: a handler is modelled only by the lines it prints, so handlers that change state are not covered.
- Encapsulation: `decimal` is modelled as an exact `real` bounded by decimal's maximum. Rounding and scale are not modelled. An overflowing deposit, where the source throws `OverflowException`, is reported by a flag.
- Encapsulation.EncapsulationDemo: the balance is rendered as the decimal digits of its whole part, which is `decimal.ToString()` for the demo's whole balance of 700. A fractional balance, and the trailing zeros a decimal's scale adds, are not rendered.
- LinqBasics: salaries are `int`, because every fixture value is whole.
- LinqBasics: `Average` (Day04_LINQBasics.cs:67) is left out, because it produces a `double`.
- Text.ToUpperOrdinal: the case folding behind `OrdinalIgnoreCase` covers ASCII letters only. Other Unicode case mappings are not modelled.
- Text.Reverse: a Dafny `char` is a Unicode scalar value, so the model reverses scalar values and keeps a character outside the Basic Multilingual Plane whole. `ToCharArray().Reverse()` reverses UTF-16 code units and splits such a character's surrogate pair, so a string holding one (an emoji, say) is a palindrome in the model but not in the source.
- Text.IsWhiteSpace: the model uses the .NET whitespace character set as a fixed list.
- Linq: LINQ's deferred execution is not modelled. Each query is evaluated once, as a value.
- Linq.OrderBy: the insertion sort is stable, but stability is not stated in a contract. The contracts state sortedness and permutation only.
- Linq.OrderByDescending: stable like `OrderBy`, and likewise its contract states only non-increasing keys and permutation.
- Linq.Where: its own contract states length and the predicate. The multiset statement is proved separately, in `Linq.WhereCounts`.
- LinqBasics: `employees.Count()` (Day04_LINQBasics.cs:66) is the sequence length `|Employees|`, with no member of its own.
- StaticVsInstance.StaticVsInstanceDemo: the demo's counts are proved for all three report lines, but the rendered text only for the first (`StaticVsInstance.DemoFirstLine`).
- These notebook pages print only, and none is part of this model:
  - Day02_OOP_ClassObject, Inheritance, Polymorphism, Abstraction and Interface;
  - Day02_OOP_IsA_HasA and Day02_BoxingUnboxing;
  - Day03_Delegates and Day03_Action.
- Day04_Async is not part of this model, because it is concurrent.
- Of Day04_ExceptionHandling, only `ValidateAge` and its custom exception are modelled. The file and parsing examples are not part of this model.
- The earlier `Program` that is commented out (Program.cs:83-166) is not modelled.
