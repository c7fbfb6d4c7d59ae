/**
 * The roster of main.go: the slice type Employees and the operations that change it
 * in place through a pointer (addEmployee, removeEmployee, sortEmployees,
 * sortPositions). The slice is the field `list` of a class, which the methods
 * reassign as the Go code reassigns `*employees`.
 */
module EmployeeRoster {
  import opened Text
  import opened Records
  import opened StableSort

  /** Go's `<` on strings, the order both sorts compare keys with, is a strict total order. */
  lemma GoStringOrder()
    ensures StrictTotalOrder(Less)
  {
    forall a: string
      ensures !Less(a, a)
    {
      LessIrreflexive(a);
    }
    forall a: string, b: string, c: string | Less(a, b) && Less(b, c)
      ensures Less(a, c)
    {
      LessTransitive(a, b, c);
    }
    forall a: string, b: string
      ensures Less(a, b) || a == b || Less(b, a)
    {
      LessTotal(a, b);
    }
  }

  /** The index removeEmployee stops at: the first record whose full name is exactly fullname. */
  function FirstMatch(s: seq<Employee>, fullname: string): (r: Option<nat>)
    ensures r.Some? ==> r.value < |s| && s[r.value].fullname == fullname
    ensures forall j :: 0 <= j < |s| && (r.None? || j < r.value) ==> s[j].fullname != fullname
  {
    if s == [] then None
    else if s[0].fullname == fullname then Some(0)
    else match FirstMatch(s[1..], fullname)
      case None => None
      case Some(i) => Some(i + 1)
  }

  /**
   * When exactly one record carries the name, removing the first match removes that
   * record, and no record with the name is left.
   */
  lemma RemoveSoleMatch(s: seq<Employee>, fullname: string, i: nat)
    requires i < |s| && s[i].fullname == fullname
    requires forall j :: 0 <= j < |s| && j != i ==> s[j].fullname != fullname
    ensures FirstMatch(s, fullname) == Some(i)
    ensures |s[..i] + s[i + 1..]| == |s| - 1
    ensures forall e :: e in s[..i] + s[i + 1..] ==> e.fullname != fullname
  {
    var rest := s[..i] + s[i + 1..];
    forall e | e in rest
      ensures e.fullname != fullname
    {
      var k :| 0 <= k < |rest| && rest[k] == e;
      if k < i {
        assert rest[k] == s[k];
      } else {
        assert rest[k] == s[k + 1];
      }
    }
  }

  /** The slice Employees, behind the pointer its methods receive. */
  class Employees {
    var list: seq<Employee>

    /** `var employees Employees`: the empty roster. */
    constructor ()
      ensures list == []
    {
      list := [];
    }

    /** addEmployee: appends one record; nothing is checked and nothing is deduplicated. */
    method AddEmployee(fullname: string, position: string, experience: real)
      modifies this
      ensures list == old(list) + [Employee(fullname, position, experience)]
      ensures |list| == |old(list)| + 1
      ensures list[..|old(list)|] == old(list)
    {
      list := list + [Employee(fullname, position, experience)];
    }

    /**
     * removeEmployee: scans from the front and splices out the first record whose name
     * is exactly fullname, keeping the order of the others; without a match nothing
     * changes and no error is reported. The index of the removed record (printed by
     * the source as its 1-based number) is returned.
     */
    method RemoveEmployee(fullname: string) returns (removed: Option<nat>)
      modifies this
      ensures removed == FirstMatch(old(list), fullname)
      ensures removed.None? ==> list == old(list)
      ensures removed.Some? ==>
        list == old(list)[..removed.value] + old(list)[removed.value + 1..]
    {
      var i := 0;
      while i < |list|
        invariant 0 <= i <= |list|
        invariant list == old(list)
        invariant forall j :: 0 <= j < i ==> list[j].fullname != fullname
      {
        if list[i].fullname == fullname {
          removed := Some(i);
          list := list[..i] + list[i + 1..];
          return;
        }
        i := i + 1;
      }
      removed := None;
    }

    /**
     * sortEmployees (its sorting part): a stable sort of the slice, in place, by the
     * lower-cased full name.
     */
    method SortEmployees()
      modifies this
      ensures list == SortedBy(old(list), FullnameKey, Less)
      ensures IsStableSortOf(list, old(list), FullnameKey, Less)
    {
      var s := list;
      var a := new Employee[|s|](i requires 0 <= i < |s| => s[i]);
      assert a[..] == s;
      InsertionSort(a, FullnameKey, Less);
      list := a[..];
      GoStringOrder();
      SortedByIsStableSort(s, FullnameKey, Less);
    }

    /** sortPositions (its sorting part): a stable sort of the slice, in place, by the lower-cased position. */
    method SortPositions()
      modifies this
      ensures list == SortedBy(old(list), PositionKey, Less)
      ensures IsStableSortOf(list, old(list), PositionKey, Less)
    {
      var s := list;
      var a := new Employee[|s|](i requires 0 <= i < |s| => s[i]);
      assert a[..] == s;
      InsertionSort(a, PositionKey, Less);
      list := a[..];
      GoStringOrder();
      SortedByIsStableSort(s, PositionKey, Less);
    }
  }
}
