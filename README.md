# Roster lambdas and method references, modelled in Dafny

A model of the two classes of the lambda tutorial that hold logic of their own.

- `RosterTest`: the search helpers of approaches 1 to 8. Each walks the roster in order. It passes the members that match a criterion to a printer (`printPerson`) or to a `Consumer`, or it passes values a `Function` computes from them. The generic `processElements` does this over any `Iterable`.
- `MethodReferencesTest`: the birthday and name comparators used to sort the roster, and the generic copy `transferElements`. That copy asks a `Supplier` for a destination collection and adds every source element to it.

Files:

- `traversal.dfy` (module `Traversal`): the specification functions `Filter` and `Map`, a reference definition of "subsequence", and the lemmas about them.
- `people.dfy` (module `People`): the roster entry `Person`, its `Sex`, and a `Date` with its calendar order `Before`.
- `roster_test.dfy` (module `RosterTest`): one method per helper. Each has the program's loop. It returns the trace of what it printed or handed on. The module also has the criteria and the Selective Service calls of `main`.
- `method_references_test.dfy` (module `MethodReferencesTest`): the comparators and their comparator-contract lemmas. It also has the classes `Collection` and `Supplier`, the method `TransferElements`, and the lemmas about what adding elements does.

How the model represents the program:

- A printer or consumer records what it receives. A helper returns that record, in call order. So "prints p" reads as "p is the next element of the trace".
- Testers and mappers are total Dafny functions (`X -> bool`, `X -> Y`).
- The elements a mapper is applied to are returned as a ghost sequence `applied`.
- The e-mail mapper `p -> p.getEmailAddress()` of approaches 7 and 8 is bound once, as a lambda, in `SelectiveService`.
- The Selective Service criterion (male, aged 18 to 25, both ends included) is written out eight times in `main`, once per call in approaches 3 to 9 (two calls in approach 7). It is modelled once, as `EligibleForSelectiveService`.
- A `Collection` has a `Kind`: a list keeps every element added to it, and a hash set ignores an element it already holds. `items` is its iteration order. For a set, only `Elements(items)` is meaningful.
- A `Supplier` builds a new collection on every `Get`, of a fixed kind and with fixed initial contents. For example, `HashSet::new` is `Supplier(SetKind, [])`. Its ghost `supplied` history records every collection it has handed out.
- The `PersonAgeComparator` class, the two sorting lambdas and `ComparisonProvider.compareByAge` all evaluate `a.getBirthday().compareTo(b.getBirthday())`. They are modelled once, as `CompareByBirthday`. Birthdays compare the way the standard date type's `compareTo` does: the difference of the years, else of the months, else of the days.

## Model

| member | source | states |
|---|---|---|
| `Traversal.Filter` | src/methodreferences/RosterTest.java:145-150 | the kept elements are never more than the input, and every one of them passes the tester |
| `Traversal.Map` | src/methodreferences/RosterTest.java:147-148 | the mapped trace has one value per input element, in order, and the i-th value is the mapper applied to the i-th element |
| `Traversal.FilterAppend` | src/methodreferences/RosterTest.java:145-150 | a traversal is one-pass: filtering a concatenation is concatenating the filtered parts |
| `Traversal.MapAppend` | src/methodreferences/RosterTest.java:147-148 | mapping a concatenation is concatenating the mapped parts |
| `Traversal.FilterCount` | src/methodreferences/RosterTest.java:41-47 | each element is emitted exactly as often as it occurs in the roster when the tester holds for it, and never when it does not |
| `Traversal.FilterMembers` | src/methodreferences/RosterTest.java:70-77 | an element is emitted if and only if it is in the roster and the tester holds for it |
| `Traversal.FilterIsSubsequence` | src/methodreferences/RosterTest.java:70-77 | the emitted members are a subsequence of the roster: the roster order is kept |
| `Traversal.FilterBoth` | src/methodreferences/RosterTest.java:179-181 | filtering by a conjunction of two criteria equals filtering by one criterion and then by the other |
| `Traversal.MapMembers` | src/methodreferences/RosterTest.java:114-119 | a value reaches the consumer exactly when some filtered element maps to it |
| `Traversal.MapIdentity` | src/methodreferences/RosterTest.java:92-96 | with a mapper that returns its argument, the generic trace is the filtered sequence itself, which is what `processPersons` hands to its consumer |
| `RosterTest.OlderThan` | src/methodreferences/RosterTest.java:20 | approach 1's criterion is a threshold at `age`: anyone at least as old as a passing member passes, a member of exactly `age` passes, and one a year younger does not |
| `RosterTest.WithinAgeRange` | src/methodreferences/RosterTest.java:31 | approach 2's criterion holds exactly when approach 1's criterion holds at `low` and fails at `high`: the half-open range `low <= age < high` |
| `RosterTest.EligibleForSelectiveService` | src/methodreferences/RosterTest.java:179-181 | the Selective Service criterion (and its copies at lines 197-199, 209-211, 219-221, 230-232, 242-244, 254-256 and 297-299) holds exactly for the men within approach 2's range from 18 up to but excluding 26, that is, aged 18 to 25 with both ends included |
| `RosterTest.PrintPersonsOlderThan` | src/methodreferences/RosterTest.java:18-24 | prints exactly the members aged at least `age`, in roster order; a member is printed if and only if it is in the roster and old enough |
| `RosterTest.PrintPersonsWithinAgeRange` | src/methodreferences/RosterTest.java:28-35 | prints exactly the members with `low <= age < high`, in roster order; a member is printed if and only if it is in the roster and in that half-open range |
| `RosterTest.WithinAgeRangeBounds` | src/methodreferences/RosterTest.java:31 | a member whose age equals `high` is never printed; a roster member whose age equals `low` is printed whenever `low < high` |
| `RosterTest.PrintPersons` | src/methodreferences/RosterTest.java:41-47 | prints exactly the roster members for which the `CheckPerson` tester holds, in roster order |
| `RosterTest.PrintPersonsWithPredicate` | src/methodreferences/RosterTest.java:70-77 | prints exactly the roster members for which the `Predicate` holds, in roster order |
| `RosterTest.ProcessPersons` | src/methodreferences/RosterTest.java:90-97 | the consumer receives exactly the matching members, once per match, in roster order; non-matching members never reach it |
| `RosterTest.ProcessPersonsWithFunction` | src/methodreferences/RosterTest.java:109-120 | the mapper is applied only to the matching members, in roster order, and the consumer receives exactly their mapped strings in that order; this is the trace of `ProcessElements` at X = Person, Y = String |
| `RosterTest.ProcessElements` | src/methodreferences/RosterTest.java:140-151 | the mapper is applied exactly to the elements passing the tester, in source order; the consumer receives map(mapper, filter(tester, source)); the trace is no longer than the source, so an empty source gives an empty trace |
| `RosterTest.InstancesOfGeneric` | src/methodreferences/RosterTest.java:138-151 | the specialised helpers are instances of the generic one: approach 1 gives the same trace as the generic traversal with approach 1's criterion and a mapper returning the member itself, approach 7 the same as the generic traversal with that mapper, and approach 7's second example the same as the generic traversal at X = Person, Y = String |
| `RosterTest.SelectiveServiceByAgeRange` | src/methodreferences/RosterTest.java:176-183 | the Selective Service members are the men among those approach 2 selects for the range 18 up to but excluding 26, so the criterion includes both 18 and 25 |
| `RosterTest.SelectiveService` | src/methodreferences/RosterTest.java:174-259 | the local-class, anonymous-class, lambda, `Predicate` and `Consumer` calls print the same members: the eligible members in roster order; approach 7's second example and approach 8 pass the same e-mail mapper `p -> p.getEmailAddress()` (lines 245 and 257) and give the same e-mail trace, which is the eligible members' addresses in roster order, and it holds an address exactly when an eligible roster member has it |
| `MethodReferencesTest.CompareDates` | src/methodreferences/MethodReferencesTest.java:40 | the birthday comparison is negative, zero or positive exactly when the first date is before, equal to or after the second |
| `MethodReferencesTest.CompareByBirthday` | src/methodreferences/MethodReferencesTest.java:37-42 | `PersonAgeComparator.compare` (and `compareByAge` at lines 72-74, and the lambdas at lines 51-55) is negative, zero or positive exactly when a's birthday is before, equal to or after b's |
| `MethodReferencesTest.CompareByBirthdayContract` | src/methodreferences/MethodReferencesTest.java:46-60 | the birthday comparator meets the comparator contract that sorting needs: swapping the arguments flips the sign, "before" is transitive, and equal birthdays compare alike with any third member |
| `MethodReferencesTest.CompareStrings` | src/methodreferences/MethodReferencesTest.java:68 | string comparison is zero exactly when the strings are equal |
| `MethodReferencesTest.CompareStringsLexicographic` | src/methodreferences/MethodReferencesTest.java:68 | string comparison follows lexicographic order: negative exactly when the first string is a proper prefix of the second or has the smaller character at the first difference, positive exactly when the reverse holds |
| `MethodReferencesTest.CompareByName` | src/methodreferences/MethodReferencesTest.java:67-69 | `compareByName` is negative, zero or positive exactly when a's name comes before, equals or comes after b's name in lexicographic order |
| `MethodReferencesTest.CompareStringsAntisymmetric` | src/methodreferences/MethodReferencesTest.java:68 | swapping the strings negates the comparison |
| `MethodReferencesTest.CompareStringsTransitive` | src/methodreferences/MethodReferencesTest.java:68 | if a compares below b and b below c, then a compares below c |
| `MethodReferencesTest.CompareStringsEqualSubstitutes` | src/methodreferences/MethodReferencesTest.java:68 | strings that compare equal have the same sign of comparison against any third string |
| `MethodReferencesTest.CompareByNameContract` | src/methodreferences/MethodReferencesTest.java:80 | the name comparator passed to the sort meets the comparator contract: sign flip on swap, transitivity, and substitution of equals |
| `MethodReferencesTest.Collection.Add` | src/methodreferences/MethodReferencesTest.java:106 | the new contents are `Added` of the old ones: a list ends with `t` appended, a set appends `t` only if it is not already held; the result says whether the collection changed; a set never holds duplicates |
| `MethodReferencesTest.Supplier.Get` | src/methodreferences/MethodReferencesTest.java:104 | each call hands out one new collection of the supplier's kind with its initial contents, and records it |
| `MethodReferencesTest.TransferElements` | src/methodreferences/MethodReferencesTest.java:101-109 | the factory is called exactly once, and that very collection is returned; its contents are the factory's contents with every source element added in iteration order; nothing it held is removed; it holds every source element; for a list it is the initial contents followed by the source; the source is not modified |
| `MethodReferencesTest.Added` | src/methodreferences/MethodReferencesTest.java:106 | after `result.add(t)` the element is held, nothing held before is removed or moved, and the elements are the old ones plus `t`; a list is the old list with `t` appended at the end, even when it already held `t`; a set that already holds `t` is left unchanged, and one that does not gets `t` appended; a set stays free of duplicates |
| `MethodReferencesTest.AddedAll` | src/methodreferences/MethodReferencesTest.java:105-107 | after the copy loop nothing the destination held is removed or moved, at most one entry is added per source element, and a set destination never comes to hold an element twice |
| `MethodReferencesTest.AddedAllToList` | src/methodreferences/MethodReferencesTest.java:104-107 | adding a source to a list leaves the initial contents followed by the source elements in order |
| `MethodReferencesTest.AddedAllElements` | src/methodreferences/MethodReferencesTest.java:105-107 | after the copy, the destination holds an element exactly when it held it before or the source has it |
| `MethodReferencesTest.EmptySetTransfer` | src/methodreferences/MethodReferencesTest.java:92-95 | copying into an empty hash set gives exactly the source's elements, each once, so the size is the number of distinct source elements |
| `MethodReferencesTest.RosterSet` | src/methodreferences/MethodReferencesTest.java:95 | the `HashSet::new` copy of the roster holds exactly the roster's members, one entry per distinct member, and the roster is unchanged |

## Left out

- Console output: `printPerson` and `System.out.println` are modelled as appending to the returned trace. Line formatting is not modelled.
- Exceptions thrown by a tester, mapper or consumer are not modelled. In the program they stop the traversal and propagate. Here these are total functions, and the consumer only records its argument.
- `Person` is not part of this model, nor `Person.createRoster` and its fixed eight members. `People.Person` has only the attributes the helpers read. The age is a plain field; how `getAge` derives it from the birthday and today's date is not modelled, because it depends on the clock.
- `CompareDates`: the birthday's type is not part of this model. It is taken to be a calendar date that compares by year, then month, then day, each as a difference. Only the sign of the result is specified.
- `CompareStrings`: the program compares UTF-16 code units. The model compares Dafny characters, which differ for characters outside the Basic Multilingual Plane.
- `Arrays.sort`, `List.toArray`, `String.compareToIgnoreCase` and `Arrays.toString` are library calls. The model proves only the comparator contract that sorting needs.
- Approach 9's stream pipeline (`RosterTest.java` lines 294-301) is library code. It is meant to give the same trace as `ProcessElements` with the Selective Service criterion and the e-mail mapper, but that is not proved.
- `TransferElements`: a `Supplier` is modelled as building a new collection each time, of one of two kinds (list or hash set), with fixed initial contents. A supplier that returns a shared or already used collection, or a destination type other than these two, is not covered.
- The iteration order of a hash set is not modelled. When a set is the source of `TransferElements`, `items` stands for whatever order its iterator gives.
- Element equality is Dafny value equality. `Person.equals` and `hashCode` are not shown, so the identity-based equality a `HashSet` of `Person` objects would use is not modelled.
- Concurrent modification of a collection during its iteration is not modelled.
- Java's 32-bit `int` is not modelled: ages, date fields and length and character differences are unbounded integers. The values the program handles (calendar fields, character codes, string lengths) do not come close to overflowing a 32-bit `int`.
- `src/examples/AggregateOperations.java` is left out. Its average is a floating-point `OptionalDouble`, built entirely from library stream operations inside `main`.
- `src/examples/TargetType.java` is left out. It shows only overload resolution by target type.
- The `main` methods are demonstration code. The model keeps only the Selective Service calls of `RosterTest.main` (`SelectiveService`) and the `HashSet::new` copy of `MethodReferencesTest.main` (`RosterSet`).
