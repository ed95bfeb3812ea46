/** Sets of names kept in dictionary order, without repetition. */
module Sorting {
  import opened Collections

  /** Dictionary order, as an object store lists and a tree set iterates. */
  predicate LexLess(s: string, t: string) {
    if t == "" then false
    else if s == "" then true
    else s[0] < t[0] || (s[0] == t[0] && LexLess(s[1..], t[1..]))
  }

  lemma {:induction false} LexTotal(s: string, t: string)
    ensures LexLess(s, t) || s == t || LexLess(t, s)
    ensures !(LexLess(s, t) && LexLess(t, s)) && !LexLess(s, s)
    decreases |s|
  {
    if s != "" {
      LexTotal(s[1..], s[1..]);
      if t != "" {
        LexTotal(s[1..], t[1..]);
        assert s == [s[0]] + s[1..] && t == [t[0]] + t[1..];
      }
    }
  }

  lemma {:induction false} LexTransitive(s: string, t: string, u: string)
    requires LexLess(s, t) && LexLess(t, u)
    ensures LexLess(s, u)
    decreases |s|
  {
    if s != "" && s[0] == t[0] == u[0] {
      LexTransitive(s[1..], t[1..], u[1..]);
    }
  }

  predicate Sorted(names: seq<string>) {
    forall i, j :: 0 <= i < j < |names| ==> LexLess(names[i], names[j])
  }

  /** With `name` at its place, if it was not there. */
  function Inserted(names: seq<string>, name: string): seq<string> {
    if names == [] || LexLess(name, names[0]) then [name] + names
    else if name == names[0] then names
    else [names[0]] + Inserted(names[1..], name)
  }

  lemma {:induction false} InsertedElements(names: seq<string>, name: string)
    ensures Elements(Inserted(names, name)) == Elements(names) + {name}
  {
    if names != [] {
      assert Elements(names) == {names[0]} + Elements(names[1..]);
      InsertedElements(names[1..], name);
      var rest := Inserted(names[1..], name);
      assert Elements([names[0]] + rest) == {names[0]} + Elements(rest);
      assert Elements([name] + names) == {name} + Elements(names);
    } else {
      assert [name] + names == [name] && Elements([name]) == {name};
    }
  }

  /** Below all the others, and they are sorted. */
  lemma SortedCons(name: string, rest: seq<string>)
    requires Sorted(rest) && forall n <- rest :: LexLess(name, n)
    ensures Sorted([name] + rest)
  {
    var all := [name] + rest;
    assert forall i :: 0 < i < |all| ==> all[i] == rest[i - 1] && all[i] in rest;
  }

  lemma {:induction false} InsertedSorted(names: seq<string>, name: string)
    requires Sorted(names)
    ensures Sorted(Inserted(names, name))
  {
    hide LexLess;
    if names == [] {
      SortedCons(name, []);
    } else if LexLess(name, names[0]) {
      forall n <- names
        ensures LexLess(name, n)
      {
        if n != names[0] {
          LexTransitive(name, names[0], n);
        }
      }
      SortedCons(name, names);
    } else if name != names[0] {
      LexTotal(name, names[0]);
      InsertedSorted(names[1..], name);
      InsertedElements(names[1..], name);
      var rest := Inserted(names[1..], name);
      forall n <- rest
        ensures LexLess(names[0], n)
      {
        assert n in Elements(rest);
      }
      SortedCons(names[0], rest);
    }
  }

  /** The names of a set in dictionary order. */
  method InOrder(names: set<string>) returns (list: seq<string>)
    ensures Sorted(list) && forall n: string :: n in list <==> n in names
  {
    hide Sorted, Inserted;
    list := [];
    var rest := names;
    NothingSorted();
    while rest != {}
      invariant rest <= names && Sorted(list) && Elements(list) == names - rest
      decreases |rest|
    {
      var n :| n in rest;
      InsertedElements(list, n);
      InsertedSorted(list, n);
      list, rest := Inserted(list, n), rest - {n};
    }
    assert forall n: string :: n in list <==> n in Elements(list);
  }

  lemma NothingSorted()
    ensures Sorted([]) && Elements<string>([]) == {}
  {
  }
}
