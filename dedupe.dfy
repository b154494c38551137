/** Which locations the file loop writes: those that pass the location filter
    and are not yet in the run-wide `seen` set, each the first time it comes. */
module Dedupe {
  import opened Filters

  function Elems(s: seq<string>): set<string>
  {
    set x | x in s
  }

  lemma ElemsAppend(a: seq<string>, b: seq<string>)
    ensures Elems(a + b) == Elems(a) + Elems(b)
  {
  }

  predicate NoDuplicates(s: seq<string>)
  {
    forall i, j :: 0 <= i < j < |s| ==> s[i] != s[j]
  }

  /** The lines written for `locations` when the set of locations already
      written is `seen`. */
  function Admitted(seen: set<string>, locations: seq<string>): (written: seq<string>)
    ensures |written| <= |locations|
    ensures forall k :: 0 <= k < |written| ==> ContainsLocationFilter(written[k]) && written[k] !in seen
    decreases |locations|
  {
    if locations == [] then []
    else if !ContainsLocationFilter(locations[0]) || locations[0] in seen then
      Admitted(seen, locations[1..])
    else
      [locations[0]] + Admitted(seen + {locations[0]}, locations[1..])
  }

  /** A location is written exactly when it occurs, passes the filter and was
      not written before. */
  lemma {:induction false} AdmittedMembers(seen: set<string>, locations: seq<string>)
    ensures forall x :: x in Admitted(seen, locations) <==>
                          x in locations && ContainsLocationFilter(x) && x !in seen
    decreases |locations|
  {
    if locations != [] {
      var head := locations[0];
      assert forall x :: x in locations <==> x == head || x in locations[1..];
      if !ContainsLocationFilter(head) || head in seen {
        AdmittedMembers(seen, locations[1..]);
      } else {
        AdmittedMembers(seen + {head}, locations[1..]);
      }
    }
  }

  /** No location is written twice. */
  lemma {:induction false} AdmittedNoDuplicates(seen: set<string>, locations: seq<string>)
    ensures NoDuplicates(Admitted(seen, locations))
    decreases |locations|
  {
    if locations != [] {
      var head := locations[0];
      if !ContainsLocationFilter(head) || head in seen {
        AdmittedNoDuplicates(seen, locations[1..]);
      } else {
        AdmittedNoDuplicates(seen + {head}, locations[1..]);
        AdmittedMembers(seen + {head}, locations[1..]);
        var out := Admitted(seen, locations);
        assert out[1..] == Admitted(seen + {head}, locations[1..]);
        assert forall j :: 1 <= j < |out| ==> out[j] == out[1..][j - 1] && out[j] != head;
      }
    }
  }

  /** The index of the first occurrence of `x`. */
  function FirstIndex(s: seq<string>, x: string): (k: nat)
    requires x in s
    ensures k < |s| && s[k] == x && x !in s[..k]
  {
    if s[0] == x then 0
    else
      var k := 1 + FirstIndex(s[1..], x);
      assert s[..k] == [s[0]] + s[1..][..k - 1];
      k
  }

  /** Every element of `out` occurs in `s`, and `out` lists them in the order of
      their first occurrence in `s`. */
  predicate InFirstOccurrenceOrder(out: seq<string>, s: seq<string>)
  {
    forall i, j :: 0 <= i < j < |out| ==>
      out[i] in s && out[j] in s && FirstIndex(s, out[i]) < FirstIndex(s, out[j])
  }

  lemma FirstIndexInTail(s: seq<string>, x: string)
    requires x in s && x != s[0]
    ensures x in s[1..] && FirstIndex(s, x) == 1 + FirstIndex(s[1..], x)
  {
  }

  /** Prefixing a head that is not in a list keeps the list in first-occurrence
      order for the longer sequence. */
  lemma OrderInTail(head: string, out: seq<string>, tail: seq<string>)
    requires InFirstOccurrenceOrder(out, tail)
    requires forall x :: x in out ==> x in tail && x != head
    ensures InFirstOccurrenceOrder(out, [head] + tail)
  {
    var s := [head] + tail;
    assert s[1..] == tail;
    forall i, j | 0 <= i < j < |out|
      ensures out[i] in s && out[j] in s && FirstIndex(s, out[i]) < FirstIndex(s, out[j])
    {
      assert out[i] in out && out[j] in out;
      FirstIndexInTail(s, out[i]);
      FirstIndexInTail(s, out[j]);
    }
  }

  /** Putting the head of the locations in front keeps first-occurrence order. */
  lemma OrderWithHead(head: string, rest: seq<string>, tail: seq<string>)
    requires InFirstOccurrenceOrder(rest, [head] + tail)
    requires forall x :: x in rest ==> x in tail && x != head
    ensures InFirstOccurrenceOrder([head] + rest, [head] + tail)
  {
    var s := [head] + tail;
    var out := [head] + rest;
    assert FirstIndex(s, head) == 0;
    forall i, j | 0 <= i < j < |out|
      ensures out[i] in s && out[j] in s && FirstIndex(s, out[i]) < FirstIndex(s, out[j])
    {
      assert out[j] == rest[j - 1] && rest[j - 1] in rest;
      FirstIndexInTail(s, out[j]);
      if i > 0 {
        assert out[i] == rest[i - 1];
      }
    }
  }

  /** Lines come out in the order of their first occurrence among the locations. */
  lemma {:induction false} AdmittedInFirstOccurrenceOrder(seen: set<string>, locations: seq<string>)
    ensures InFirstOccurrenceOrder(Admitted(seen, locations), locations)
    decreases |locations|
  {
    if locations != [] {
      var head := locations[0];
      var tail := locations[1..];
      assert locations == [head] + tail;
      if !ContainsLocationFilter(head) || head in seen {
        AdmittedInFirstOccurrenceOrder(seen, tail);
        AdmittedMembers(seen, tail);
        OrderInTail(head, Admitted(seen, tail), tail);
      } else {
        var rest := Admitted(seen + {head}, tail);
        AdmittedInFirstOccurrenceOrder(seen + {head}, tail);
        AdmittedMembers(seen + {head}, tail);
        OrderInTail(head, rest, tail);
        OrderWithHead(head, rest, tail);
      }
    }
  }

  /** Adding a location not yet written keeps the lines free of duplicates. */
  lemma NoDuplicatesExtend(s: seq<string>, x: string)
    requires NoDuplicates(s) && x !in s
    ensures NoDuplicates(s + [x])
  {
    assert forall i :: 0 <= i < |s| ==> (s + [x])[i] == s[i];
  }

  /** Writing `a` and then `b` is writing `a + b`: the set carried from one record
      to the next is all that links them. */
  lemma {:induction false} AdmittedAppend(seen: set<string>, a: seq<string>, b: seq<string>)
    ensures Admitted(seen, a + b) == Admitted(seen, a) + Admitted(seen + Elems(Admitted(seen, a)), b)
    decreases |a|
  {
    if a == [] {
      assert a + b == b;
      assert Elems([]) == {};
      assert seen + {} == seen;
    } else {
      var head := a[0];
      assert (a + b)[0] == head && (a + b)[1..] == a[1..] + b;
      if !ContainsLocationFilter(head) || head in seen {
        AdmittedAppend(seen, a[1..], b);
      } else {
        AdmittedAppend(seen + {head}, a[1..], b);
        var rest := Admitted(seen + {head}, a[1..]);
        ElemsAppend([head], rest);
        assert Elems([head]) == {head};
        assert seen + Elems([head] + rest) == seen + {head} + Elems(rest);
      }
    }
  }

  /** Locations that all either fail the filter or were already written produce
      no output. */
  lemma {:induction false} AdmittedNothingNew(seen: set<string>, locations: seq<string>)
    requires forall k :: 0 <= k < |locations| && ContainsLocationFilter(locations[k]) ==> locations[k] in seen
    ensures Admitted(seen, locations) == []
    decreases |locations|
  {
    if locations != [] {
      assert ContainsLocationFilter(locations[0]) ==> locations[0] in seen;
      AdmittedNothingNew(seen, locations[1..]);
    }
  }

  /** Processing the same locations a second time writes nothing and leaves the
      `seen` set as it is. */
  lemma ReprocessingAdmitsNothing(seen: set<string>, locations: seq<string>)
    ensures var seen' := seen + Elems(Admitted(seen, locations));
            Admitted(seen', locations) == [] && seen' + Elems(Admitted(seen', locations)) == seen'
  {
    var seen' := seen + Elems(Admitted(seen, locations));
    AdmittedMembers(seen, locations);
    AdmittedNothingNew(seen', locations);
    assert Elems([]) == {};
  }
}
