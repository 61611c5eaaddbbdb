/** Patching the static IPv6 addresses of an interface (redfish-core/lib/ethernet.hpp
    `handleIPv6StaticAddressesPatch`). */
module StaticAddresses {
  import opened Options

  datatype Address = Address(id: string, address: string, prefixLength: nat, origin: string)

  predicate IsStatic(a: Address) {
    a.origin == "Static"
  }

  /** An element of the request: null, an empty object, the properties that were read, or something unreadable. */
  datatype Element = Null | Empty | Object(address: Option<string>, prefixLength: Option<nat>) | Malformed

  datatype Request = NotArray | Elements(list: seq<Element>)

  /** What is asked of the network daemon. */
  datatype Action =
    | Delete(id: string)
    | DeleteAndCreate(id: string, prefixLength: nat, address: string)
    | Create(prefixLength: nat, address: string)

  datatype Error =
    | TypeError
    | FormatError(index: nat)
    | MissingAddress(index: nat)
    | MissingPrefixLength(index: nat)
    | CannotBeDeleted

  /** The actions issued, and the error that ended the request, if any. */
  datatype Outcome = Outcome(actions: seq<Action>, error: Option<Error>)

  /** What one element means for the entry at its position. */
  function Act(e: Element, entry: Option<Address>, index: nat): Outcome {
    match e
    case Null =>
      if entry.None? then Outcome([], Some(CannotBeDeleted)) else Outcome([Delete(entry.value.id)], None)
    case Empty =>
      if entry.None? then Outcome([], Some(FormatError(index))) else Outcome([], None)
    case Malformed =>
      Outcome([], Some(FormatError(index)))
    case Object(address, prefixLength) =>
      if address.None? && entry.None? then Outcome([], Some(MissingAddress(index)))
      else if prefixLength.None? && entry.None? then Outcome([], Some(MissingPrefixLength(index)))
      else if entry.None? then Outcome([Create(prefixLength.value, address.value)], None)
      else
        Outcome([DeleteAndCreate(entry.value.id,
                   if prefixLength.Some? then prefixLength.value else entry.value.prefixLength,
                   if address.Some? then address.value else entry.value.address)], None)
  }

  /** The static entries, in order. */
  function Statics(data: seq<Address>): seq<Address> {
    if data == [] then []
    else if IsStatic(data[0]) then [data[0]] + Statics(data[1..])
    else Statics(data[1..])
  }

  /** The k-th element acts on the k-th static entry, until one fails. */
  function Patch(elements: seq<Element>, statics: seq<Address>, index: nat): Outcome
    decreases |elements|
  {
    if elements == [] then Outcome([], None)
    else
      var o := Act(elements[0], if statics == [] then None else Some(statics[0]), index);
      if o.error.Some? then o
      else
        var rest := Patch(elements[1..], if statics == [] then [] else statics[1..], index + 1);
        Outcome(o.actions + rest.actions, rest.error)
  }

  /** The first static entry from `head` on, or the end. */
  method GetNextStaticIPEntry(data: seq<Address>, head: nat) returns (r: nat)
    requires head <= |data|
    ensures head <= r <= |data| && (r < |data| ==> IsStatic(data[r]))
    ensures forall k :: head <= k < r ==> !IsStatic(data[k])
    ensures Statics(data[head..]) == Statics(data[r..])
  {
    r := head;
    while r != |data|
      invariant head <= r <= |data|
      invariant forall k :: head <= k < r ==> !IsStatic(data[k])
      invariant Statics(data[head..]) == Statics(data[r..])
      decreases |data| - r
    {
      if data[r].origin == "Static" {
        return;
      }
      assert data[r..][1..] == data[r + 1..];
      r := r + 1;
    }
  }

  function Prepend(done: seq<Action>, o: Outcome): Outcome {
    Outcome(done + o.actions, o.error)
  }

  /** One round of the loop. */
  lemma PatchStep(elements: seq<Element>, k: nat, data: seq<Address>, it: nat, done: seq<Action>)
    requires k < |elements| && it <= |data| && (it < |data| ==> IsStatic(data[it]))
    ensures
      var entry := if it < |data| then Some(data[it]) else None;
      var o := Act(elements[k], entry, k + 1);
      var here := Prepend(done, Patch(elements[k..], Statics(data[it..]), k + 1));
      if o.error.Some? then here == Outcome(done, o.error)
      else
        here == Prepend(done + o.actions,
                  Patch(elements[k + 1..], Statics(data[if it < |data| then it + 1 else it..]), k + 2))
  {
    hide Act;
    var entry := if it < |data| then Some(data[it]) else None;
    var o := Act(elements[k], entry, k + 1);
    assert elements[k..][1..] == elements[k + 1..];
    ErrorHasNoAction(elements[k], entry, k + 1);
    if it < |data| {
      assert data[it..][1..] == data[it + 1..];
      var s := Statics(data[it..]);
      assert s[0] == data[it] && s[1..] == Statics(data[it + 1..]);
    } else {
      assert data[it..] == [];
    }
    var rest := Patch(elements[k + 1..], Statics(data[if it < |data| then it + 1 else it..]), k + 2);
    assert done + (o.actions + rest.actions) == done + o.actions + rest.actions;
  }

  lemma ErrorHasNoAction(e: Element, entry: Option<Address>, index: nat)
    ensures Act(e, entry, index).error.Some? ==> Act(e, entry, index).actions == []
  {
  }

  method HandleIPv6StaticAddressesPatch(input: Request, data: seq<Address>) returns (r: Outcome)
    ensures input.NotArray? || input.list == [] ==> r == Outcome([], Some(TypeError))
    ensures input.Elements? && input.list != [] ==> r == Patch(input.list, Statics(data), 1)
  {
    hide Patch, Statics;
    if input.NotArray? || input.list == [] {
      return Outcome([], Some(TypeError));
    }
    var actions: seq<Action> := [];
    var entryIdx := 1;
    var it := GetNextStaticIPEntry(data, 0);
    assert data[0..] == data && input.list[0..] == input.list;
    for k := 0 to |input.list|
      invariant entryIdx == k + 1 && it <= |data| && (it < |data| ==> IsStatic(data[it]))
      invariant Patch(input.list, Statics(data), 1) ==
                Prepend(actions, Patch(input.list[k..], Statics(data[it..]), k + 1))
    {
      PatchStep(input.list, k, data, it, actions);
      var thisJson := input.list[k];
      if !thisJson.Null? && !thisJson.Empty? {
        if thisJson.Malformed? {
          return Outcome(actions, Some(FormatError(entryIdx)));
        }
        var addr, prefix;
        if thisJson.address.Some? {
          addr := thisJson.address.value;
        } else if it != |data| {
          addr := data[it].address;
        } else {
          return Outcome(actions, Some(MissingAddress(entryIdx)));
        }
        if thisJson.prefixLength.Some? {
          prefix := thisJson.prefixLength.value;
        } else if it != |data| {
          prefix := data[it].prefixLength;
        } else {
          return Outcome(actions, Some(MissingPrefixLength(entryIdx)));
        }
        if it != |data| {
          actions := actions + [DeleteAndCreate(data[it].id, prefix, addr)];
          it := GetNextStaticIPEntry(data, it + 1);
        } else {
          actions := actions + [Create(thisJson.prefixLength.value, addr)];
        }
        entryIdx := entryIdx + 1;
      } else {
        if it == |data| {
          if thisJson.Null? {
            return Outcome(actions, Some(CannotBeDeleted));
          } else {
            return Outcome(actions, Some(FormatError(entryIdx)));
          }
        }
        if thisJson.Null? {
          actions := actions + [Delete(data[it].id)];
        }
        if it != |data| {
          it := GetNextStaticIPEntry(data, it + 1);
        }
        entryIdx := entryIdx + 1;
      }
    }
    NothingLeft(input.list[|input.list|..], Statics(data[it..]), |input.list| + 1);
    r := Outcome(actions, None);
  }

  lemma NothingLeft(elements: seq<Element>, statics: seq<Address>, index: nat)
    requires elements == []
    ensures Patch(elements, statics, index) == Outcome([], None)
  {
  }

  /** How many elements are handled before one fails. */
  function Handled(elements: seq<Element>, statics: seq<Address>, index: nat): (n: nat)
    ensures n <= |elements|
    decreases |elements|
  {
    if elements == [] || Act(elements[0], if statics == [] then None else Some(statics[0]), index).error.Some? then 0
    else 1 + Handled(elements[1..], if statics == [] then [] else statics[1..], index + 1)
  }

  /** A request that ends in an error has issued exactly the actions of the elements before the failing one. */
  lemma {:induction false} ErrorKeepsPrefix(elements: seq<Element>, statics: seq<Address>, index: nat)
    ensures
      var n := Handled(elements, statics, index);
      && Patch(elements[..n], statics, index) == Outcome(Patch(elements, statics, index).actions, None)
      && (Patch(elements, statics, index).error.None? <==> n == |elements|)
      && (n < |elements| ==>
            Patch(elements, statics, index).error ==
            Act(elements[n], if n < |statics| then Some(statics[n]) else None, index + n).error)
    decreases |elements|
  {
    hide Act, Patch, Handled;
    var n, rest := Handled(elements, statics, index), if statics == [] then [] else statics[1..];
    PatchUnfolds(elements, statics, index);
    PatchUnfolds(elements[..n], statics, index);
    if elements != [] && n > 0 {
      ErrorKeepsPrefix(elements[1..], rest, index + 1);
      assert elements[..n][1..] == elements[1..][..n - 1];
    }
  }

  /** The first element, and the others. */
  lemma PatchUnfolds(elements: seq<Element>, statics: seq<Address>, index: nat)
    ensures
      var n, rest := Handled(elements, statics, index), if statics == [] then [] else statics[1..];
      if elements == [] then n == 0 && Patch(elements, statics, index) == Outcome([], None)
      else
        var o := Act(elements[0], if statics == [] then None else Some(statics[0]), index);
        var r := Patch(elements[1..], rest, index + 1);
        && (n > 0 <==> o.error.None?)
        && (n > 0 ==> n == 1 + Handled(elements[1..], rest, index + 1))
        && Patch(elements, statics, index) ==
           if n > 0 then Outcome(o.actions + r.actions, r.error) else Outcome([], o.error)
  {
    hide Act;
    if elements != [] {
      ErrorHasNoAction(elements[0], if statics == [] then None else Some(statics[0]), index);
    }
  }

  /** An address as the interface has it; the identifier of a new one is the daemon's to choose. */
  datatype Live = Live(id: Option<string>, address: string, prefixLength: nat, origin: string)

  function AsLive(a: Address): Live {
    Live(Some(a.id), a.address, a.prefixLength, a.origin)
  }

  function AllLive(data: seq<Address>): seq<Live> {
    seq(|data|, k requires 0 <= k < |data| => AsLive(data[k]))
  }

  /** The interface after an action; a replaced address is shown in its place. */
  function Apply(a: Action, live: seq<Live>): seq<Live> {
    match a
    case Create(prefix, address) => live + [Live(None, address, prefix, "Static")]
    case Delete(id) => Without(id, live)
    case DeleteAndCreate(id, prefix, address) => Replaced(id, Live(None, address, prefix, "Static"), live)
  }

  function Without(id: string, live: seq<Live>): seq<Live> {
    if live == [] then []
    else (if live[0].id == Some(id) then [] else [live[0]]) + Without(id, live[1..])
  }

  function Replaced(id: string, next: Live, live: seq<Live>): seq<Live> {
    if live == [] then []
    else [if live[0].id == Some(id) then next else live[0]] + Replaced(id, next, live[1..])
  }

  function ApplyAll(actions: seq<Action>, live: seq<Live>): seq<Live>
    decreases |actions|
  {
    if actions == [] then live else ApplyAll(actions[1..], Apply(actions[0], live))
  }

  /** The positional merge: entries of another origin stay where they are, the k-th static entry takes the k-th element, and
      elements left over are added at the end. */
  function Merge(data: seq<Address>, elements: seq<Element>): seq<Live>
    decreases |data|, |elements|
  {
    if elements == [] then AllLive(data)
    else if data == [] then (if New(elements[0]).Some? then [New(elements[0]).value] else []) + Merge(data, elements[1..])
    else if !IsStatic(data[0]) then [AsLive(data[0])] + Merge(data[1..], elements)
    else Merged(data[0], elements[0]) + Merge(data[1..], elements[1..])
  }

  function New(e: Element): Option<Live> {
    if e.Object? && e.address.Some? && e.prefixLength.Some? then
      Some(Live(None, e.address.value, e.prefixLength.value, "Static"))
    else None
  }

  function Merged(a: Address, e: Element): seq<Live> {
    match e
    case Null => []
    case Object(address, prefixLength) =>
      [Live(None, if address.Some? then address.value else a.address,
         if prefixLength.Some? then prefixLength.value else a.prefixLength, "Static")]
    case _ => [AsLive(a)]
  }

  ghost predicate DistinctIds(data: seq<Address>) {
    forall i, j :: 0 <= i < j < |data| ==> data[i].id != data[j].id
  }

  /** None of these is an address of `data`. */
  ghost predicate Apart(done: seq<Live>, data: seq<Address>) {
    forall i, j :: 0 <= i < |done| && 0 <= j < |data| ==> done[i].id != Some(data[j].id)
  }

  /** An element that can be handled, given whether there is a static entry at its position: it is readable; null and empty
      elements need the entry; and without one an object needs both properties. */
  predicate CanHandle(e: Element, hasEntry: bool) {
    match e
    case Malformed => false
    case Null => hasEntry
    case Empty => hasEntry
    case Object(address, prefixLength) => hasEntry || (address.Some? && prefixLength.Some?)
  }

  /** The error that an element gives when it cannot be handled. */
  predicate Complains(e: Element, position: nat, error: Error) {
    match e
    case Malformed => error == FormatError(position)
    case Null => error == CannotBeDeleted
    case Empty => error == FormatError(position)
    case Object(address, _) => error == if address.None? then MissingAddress(position) else MissingPrefixLength(position)
  }

  /** The first `n` elements can be handled, and the next one, if there is one, cannot. */
  ghost predicate HandlesUpTo(elements: seq<Element>, entries: nat, n: nat) {
    && n <= |elements| && (forall k :: 0 <= k < n ==> CanHandle(elements[k], k < entries))
    && (n < |elements| ==> !CanHandle(elements[n], n < entries))
  }

  lemma ActHandles(e: Element, entry: Option<Address>, index: nat)
    ensures Act(e, entry, index).error.None? <==> CanHandle(e, entry.Some?)
    ensures Act(e, entry, index).error.Some? ==> Complains(e, index, Act(e, entry, index).error.value)
  {
  }

  /** The number of elements handled is the first one that cannot be; a request succeeds if and only if there is none; and
      otherwise it gives that element's error, with its position. */
  lemma {:induction false} SucceedsExactly(elements: seq<Element>, statics: seq<Address>, index: nat)
    ensures HandlesUpTo(elements, |statics|, Handled(elements, statics, index))
    ensures Patch(elements, statics, index).error.None? <==>
            forall k :: 0 <= k < |elements| ==> CanHandle(elements[k], k < |statics|)
    ensures
      var n, error := Handled(elements, statics, index), Patch(elements, statics, index).error;
      error.Some? ==> n < |elements| && Complains(elements[n], index + n, error.value)
    decreases |elements|
  {
    hide Act, CanHandle, Complains, Patch, Handled;
    PatchUnfolds(elements, statics, index);
    if elements != [] {
      var entry := if statics == [] then None else Some(statics[0]);
      ActHandles(elements[0], entry, index);
      if Act(elements[0], entry, index).error.None? {
        var rest := if statics == [] then [] else statics[1..];
        SucceedsExactly(elements[1..], rest, index + 1);
        assert forall k :: 0 < k < |elements| ==> elements[k] == elements[1..][k - 1];
        assert forall k :: 0 <= k < |elements| - 1 ==> elements[1..][k] == elements[k + 1];
      }
    }
  }

  lemma HandledIs(elements: seq<Element>, statics: seq<Address>, index: nat, n: nat)
    requires HandlesUpTo(elements, |statics|, n)
    ensures Handled(elements, statics, index) == n
  {
    hide Patch, Handled, CanHandle, Complains;
    SucceedsExactly(elements, statics, index);
  }

  lemma AllApart(data: seq<Address>)
    ensures Apart([], data)
  {
  }

  /** The handler refines the merge: for every request, issuing its actions in order turns the interface's addresses into the
      merge of the elements before the first one that cannot be handled, which are all when the request succeeds. */
  lemma PatchIsMerge(elements: seq<Element>, data: seq<Address>, index: nat, n: nat)
    requires DistinctIds(data) && HandlesUpTo(elements, |Statics(data)|, n)
    ensures ApplyAll(Patch(elements, Statics(data), index).actions, AllLive(data)) == Merge(data, elements[..n])
  {
    hide *;
    HandledIs(elements, Statics(data), index, n);
    ErrorKeepsPrefix(elements, Statics(data), index);
    AllApart(data);
    MergeFrom([], elements[..n], data, index);
    assert [] + AllLive(data) == AllLive(data);
    assert [] + Merge(data, elements[..n]) == Merge(data, elements[..n]);
  }

  /** The addresses of another origin. */
  function Others(live: seq<Live>): seq<Live> {
    if live == [] then []
    else (if live[0].origin == "Static" then [] else [live[0]]) + Others(live[1..])
  }

  /** The merge leaves them as they are, all of them and in order. */
  lemma {:induction false} OthersStay(data: seq<Address>, elements: seq<Element>)
    ensures Others(Merge(data, elements)) == Others(AllLive(data))
    decreases |data|, |elements|
  {
    if elements == [] {
    } else if data == [] {
      OthersStay(data, elements[1..]);
      var first := if New(elements[0]).Some? then [New(elements[0]).value] else [];
      OthersJoin(first, Merge(data, elements[1..]));
      assert Others(first) == [];
    } else {
      FirstLive(data);
      var first := if IsStatic(data[0]) then Merged(data[0], elements[0]) else [AsLive(data[0])];
      var rest := if IsStatic(data[0]) then elements[1..] else elements;
      OthersStay(data[1..], rest);
      OthersJoin(first, Merge(data[1..], rest));
      OthersJoin([AsLive(data[0])], AllLive(data[1..]));
      assert first == [] || first == [first[0]];
    }
  }

  lemma {:induction false} OthersJoin(a: seq<Live>, b: seq<Live>)
    ensures Others(a + b) == Others(a) + Others(b)
    decreases |a|
  {
    if a == [] {
      assert a + b == b;
    } else {
      assert (a + b)[1..] == a[1..] + b;
      OthersJoin(a[1..], b);
    }
  }

  lemma {:induction false} MergeFrom(done: seq<Live>, elements: seq<Element>, data: seq<Address>, index: nat)
    requires DistinctIds(data) && Apart(done, data) && Patch(elements, Statics(data), index).error.None?
    ensures ApplyAll(Patch(elements, Statics(data), index).actions, done + AllLive(data)) == done + Merge(data, elements)
    decreases |data|, |elements|
  {
    hide AllLive, Act, Apply, ApplyAll, Merged, New, Patch, Merge, Statics;
    MergeUnfolds(data, elements);
    if elements == [] {
      NothingLeft(elements, Statics(data), index);
      NothingApplied(done + AllLive(data));
    } else if data == [] {
      NoneStatic();
      CreateFirst(elements, done, index);
      var x := New(elements[0]).value;
      MergeFrom(done + [x], elements[1..], data, index + 1);
      assert done + ([x] + Merge(data, elements[1..])) == done + [x] + Merge(data, elements[1..]);
    } else {
      var tail := data[1..];
      FirstLive(data);
      FirstStatic(data);
      if !IsStatic(data[0]) {
        var x := [AsLive(data[0])];
        ApartFrom(done, x, data);
        MergeFrom(done + x, elements, tail, index);
        assert done + (x + AllLive(tail)) == done + x + AllLive(tail);
        assert done + (x + Merge(tail, elements)) == done + x + Merge(tail, elements);
      } else {
        var x := Merged(data[0], elements[0]);
        MergedIsOwn(data[0], elements[0]);
        ApartFrom(done, x, data);
        FirstPatched(elements, data, index);
        MergeFrom(done + x, elements[1..], tail, index + 1);
        ActFirst(elements[0], data, done, index);
        var rest := Patch(elements[1..], Statics(tail), index + 1);
        ApplyRest(Act(elements[0], Some(data[0]), index).actions, rest.actions, done + AllLive(data));
        assert done + (x + Merge(tail, elements[1..])) == done + x + Merge(tail, elements[1..]);
      }
    }
  }

  lemma MergeUnfolds(data: seq<Address>, elements: seq<Element>)
    ensures elements == [] ==> Merge(data, elements) == AllLive(data)
    ensures elements != [] && data == [] && New(elements[0]).Some? ==>
              Merge(data, elements) == [New(elements[0]).value] + Merge(data, elements[1..])
    ensures elements != [] && data != [] && !IsStatic(data[0]) ==>
              Merge(data, elements) == [AsLive(data[0])] + Merge(data[1..], elements)
    ensures elements != [] && data != [] && IsStatic(data[0]) ==>
              Merge(data, elements) == Merged(data[0], elements[0]) + Merge(data[1..], elements[1..])
  {
    hide New, Merged, AllLive;
  }

  lemma NothingApplied(live: seq<Live>)
    ensures ApplyAll([], live) == live
  {
  }

  lemma NoneStatic()
    ensures Statics([]) == []
  {
  }

  lemma FirstStatic(data: seq<Address>)
    requires data != []
    ensures Statics(data) == if IsStatic(data[0]) then [data[0]] + Statics(data[1..]) else Statics(data[1..])
  {
  }

  lemma FirstPatched(elements: seq<Element>, data: seq<Address>, index: nat)
    requires elements != [] && data != [] && IsStatic(data[0])
    requires Patch(elements, Statics(data), index).error.None?
    ensures Act(elements[0], Some(data[0]), index).error.None?
    ensures
      var rest := Patch(elements[1..], Statics(data[1..]), index + 1);
      Patch(elements, Statics(data), index) ==
      Outcome(Act(elements[0], Some(data[0]), index).actions + rest.actions, None) && rest.error.None?
  {
    hide Act;
    var s := Statics(data);
    assert s[0] == data[0] && s[1..] == Statics(data[1..]);
  }

  lemma MergedIsOwn(a: Address, e: Element)
    ensures |Merged(a, e)| <= 1 && forall k :: 0 <= k < |Merged(a, e)| ==> Merged(a, e)[k].id in {None, Some(a.id)}
  {
  }

  lemma ApartFrom(done: seq<Live>, x: seq<Live>, data: seq<Address>)
    requires data != [] && DistinctIds(data) && Apart(done, data)
    requires forall k :: 0 <= k < |x| ==> x[k].id in {None, Some(data[0].id)}
    ensures DistinctIds(data[1..]) && Apart(done + x, data[1..])
  {
  }

  lemma NoneLive()
    ensures AllLive([]) == []
  {
  }

  lemma FirstLive(data: seq<Address>)
    requires data != []
    ensures AllLive(data) == [AsLive(data[0])] + AllLive(data[1..])
  {
  }

  /** With no entry left, an element that does not fail creates an address. */
  lemma CreateFirst(elements: seq<Element>, done: seq<Live>, index: nat)
    requires elements != [] && Patch(elements, [], index).error.None?
    ensures New(elements[0]).Some? && Patch(elements[1..], [], index + 1).error.None?
    ensures ApplyAll(Patch(elements, [], index).actions, done + AllLive([])) ==
            ApplyAll(Patch(elements[1..], [], index + 1).actions, done + [New(elements[0]).value] + AllLive([]))
  {
    var x, rest := New(elements[0]).value, Patch(elements[1..], [], index + 1);
    var actions := Patch(elements, [], index).actions;
    NoneLive();
    assert done + AllLive([]) == done && done + [x] + AllLive([]) == done + [x];
    assert actions == [Create(x.prefixLength, x.address)] + rest.actions;
    assert actions[1..] == rest.actions;
  }

  lemma ApplyRest(first: seq<Action>, rest: seq<Action>, live: seq<Live>)
    requires |first| <= 1
    ensures ApplyAll(first + rest, live) == ApplyAll(rest, if first == [] then live else Apply(first[0], live))
  {
    if first == [] {
      assert first + rest == rest;
    } else {
      assert (first + rest)[1..] == rest;
    }
  }

  /** An element acts on its entry alone. */
  lemma ActFirst(e: Element, data: seq<Address>, done: seq<Live>, index: nat)
    requires data != [] && DistinctIds(data) && Apart(done, data) && Act(e, Some(data[0]), index).error.None?
    ensures
      var first, live := Act(e, Some(data[0]), index).actions, done + AllLive(data);
      |first| <= 1 &&
      (if first == [] then live else Apply(first[0], live)) == done + Merged(data[0], e) + AllLive(data[1..])
  {
    hide Without, Replaced;
    FirstLive(data);
    var x, tail, id := AsLive(data[0]), AllLive(data[1..]), data[0].id;
    assert done + ([x] + tail) == done + [x] + tail;
    assert forall k :: 0 <= k < |tail| ==> tail[k].id == Some(data[k + 1].id);
    if e.Null? {
      WithoutOne(id, done, x, tail);
    } else if e.Object? {
      ReplacedOne(id, Merged(data[0], e)[0], done, x, tail);
    }
  }

  ghost predicate NoId(id: string, live: seq<Live>) {
    forall k :: 0 <= k < |live| ==> live[k].id != Some(id)
  }

  lemma {:induction false} WithoutOne(id: string, done: seq<Live>, x: Live, tail: seq<Live>)
    requires NoId(id, done) && NoId(id, tail) && x.id == Some(id)
    ensures Without(id, done + [x] + tail) == done + tail
    decreases |done|
  {
    var live := done + [x] + tail;
    if done == [] {
      assert live[1..] == tail;
      WithoutNone(id, tail);
    } else {
      assert live[1..] == done[1..] + [x] + tail;
      WithoutOne(id, done[1..], x, tail);
      assert done == [done[0]] + done[1..];
    }
  }

  lemma {:induction false} WithoutNone(id: string, live: seq<Live>)
    requires NoId(id, live)
    ensures Without(id, live) == live
    decreases |live|
  {
    if live != [] {
      WithoutNone(id, live[1..]);
    }
  }

  lemma {:induction false} ReplacedOne(id: string, next: Live, done: seq<Live>, x: Live, tail: seq<Live>)
    requires NoId(id, done) && NoId(id, tail) && x.id == Some(id)
    ensures Replaced(id, next, done + [x] + tail) == done + [next] + tail
    decreases |done|
  {
    var live := done + [x] + tail;
    if done == [] {
      assert live[1..] == tail;
      ReplacedNone(id, next, tail);
    } else {
      assert live[1..] == done[1..] + [x] + tail;
      ReplacedOne(id, next, done[1..], x, tail);
      assert done == [done[0]] + done[1..];
    }
  }

  lemma {:induction false} ReplacedNone(id: string, next: Live, live: seq<Live>)
    requires NoId(id, live)
    ensures Replaced(id, next, live) == live
    decreases |live|
  {
    if live != [] {
      ReplacedNone(id, next, live[1..]);
    }
  }
}
