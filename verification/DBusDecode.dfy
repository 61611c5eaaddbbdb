/** Reading a D-Bus message into JSON (include/openbmc_dbus_rest.hpp `convertDBusToJSON` and its readers).

    The message is a tree of typed values with a cursor: a stack of what is left to read in each container entered. */
module Decoder {
  import opened Options
  import opened Signatures

  /** A basic value: a text, an integer, or the 64-bit pattern of a double. */
  datatype Scalar = Text(s: string) | Number(n: int) | Float(bits: nat)

  datatype Value =
    | VBasic(code: char, payload: Scalar)
    | VArray(elem: Type, items: seq<Value>)
    | VStruct(fields: seq<Value>)
    | VEntry(key: Value, val: Value)
    | VVariant(inner: Value)

  datatype Json =
    | JNull
    | JBool(b: bool)
    | JNum(n: int)
    | JFloat(bits: nat)
    | JStr(s: string)
    | JArr(items: seq<Json>)
    | JObj(members: map<string, Json>)

  /** Text of a JSON value that is not a string, for use as an object key. */
  type Dump = Json -> string

  function TypeOf(v: Value): Type
    decreases v, 0
  {
    match v
    case VBasic(c, _) => Basic(c)
    case VArray(e, _) => Array(e)
    case VStruct(fs) => Struct(TypesOf(fs))
    case VEntry(k, w) => Entry(TypeOf(k), TypeOf(w))
    case VVariant(_) => Variant
  }

  function TypesOf(vs: seq<Value>): (r: seq<Type>)
    ensures |r| == |vs|
    decreases vs, 0
  {
    if vs == [] then [] else [TypeOf(vs[0])] + TypesOf(vs[1..])
  }

  predicate PayloadFits(code: char, payload: Scalar) {
    if code in "sog" then payload.Text? else if code == 'd' then payload.Float? else payload.Number?
  }

  /** A type that can stand on its own: no bare dictionary entry, no empty struct. */
  ghost predicate Complete(t: Type)
    decreases t
  {
    match t
    case Basic(c) => IsBasicCode(c)
    case Array(e) => if e.Entry? then Complete(e.key) && Complete(e.val) else Complete(e)
    case Struct(fs) => fs != [] && forall f :: f in fs ==> Complete(f)
    case Entry(_, _) => false
    case Variant => true
  }

  /** A value as the bus delivers it: it has the type it claims. */
  ghost predicate Sound(v: Value)
    decreases v, 0
  {
    Complete(TypeOf(v)) &&
    match v
    case VBasic(c, p) => PayloadFits(c, p)
    case VArray(e, items) =>
      && (forall k :: 0 <= k < |items| ==> TypeOf(items[k]) == e)
      && (if e.Entry? then
            forall k :: 0 <= k < |items| ==> items[k].VEntry? && Sound(items[k].key) && Sound(items[k].val)
          else forall k :: 0 <= k < |items| ==> Sound(items[k]))
    case VStruct(fs) => forall k :: 0 <= k < |fs| ==> Sound(fs[k])
    case VEntry(_, _) => false
    case VVariant(w) => Sound(w)
  }

  function KeyText(dump: Dump, j: Json): string {
    if j.JStr? then j.s else dump(j)
  }

  function ScalarJson(code: char, payload: Scalar): Json {
    match payload
    case Text(s) => JStr(s)
    case Number(n) => if code == 'b' then JBool(n != 0) else JNum(n)
    case Float(bits) => JFloat(bits)
  }

  /** `push_back` works on a null value, which becomes an array, and on an array; anything else throws. */
  predicate Appendable(j: Json) {
    j.JNull? || j.JArr?
  }

  function ItemsOf(j: Json): seq<Json> {
    if j.JArr? then j.items else []
  }

  function AppendAll(target: Json, js: Option<seq<Json>>): Option<Json> {
    if !Appendable(target) || js.None? then None else Some(JArr(ItemsOf(target) + js.value))
  }

  /** What reading a value onto `target` leaves there; None where an append throws. A struct is appended to what is there,
      everything else replaces it. */
  function Into(dump: Dump, v: Value, target: Json): Option<Json>
    decreases v, 0
  {
    match v
    case VBasic(c, p) => Some(ScalarJson(c, p))
    case VArray(e, items) => if e.Entry? then ObjectOf(IntoMembers(dump, items)) else ArrayOfJson(IntoAll(dump, items))
    case VStruct(fs) => AppendAll(target, IntoAll(dump, fs))
    case VEntry(_, w) => Into(dump, w, target)
    case VVariant(w) => Into(dump, w, target)
  }

  function ArrayOfJson(js: Option<seq<Json>>): Option<Json> {
    if js.None? then None else Some(JArr(js.value))
  }

  function ObjectOf(members: Option<map<string, Json>>): Option<Json> {
    if members.None? then None else Some(JObj(members.value))
  }

  /** Values read one after the other, each onto a null value of its own. */
  function IntoAll(dump: Dump, vs: seq<Value>): (r: Option<seq<Json>>)
    ensures r.Some? ==> |r.value| == |vs|
    decreases vs, 0
  {
    if vs == [] then Some([])
    else Snoc(IntoAll(dump, vs[..|vs| - 1]), Into(dump, vs[|vs| - 1], JNull))
  }

  function Snoc(js: Option<seq<Json>>, j: Option<Json>): Option<seq<Json>> {
    if js.None? || j.None? then None else Some(js.value + [j.value])
  }

  /** The entries of a dictionary, one after the other. */
  function IntoMembers(dump: Dump, vs: seq<Value>): Option<map<string, Json>>
    decreases vs, 0
  {
    if vs == [] then Some(map[])
    else
      var last, members := vs[|vs| - 1], IntoMembers(dump, vs[..|vs| - 1]);
      if members.None? || !last.VEntry? then None else IntoEntry(dump, last, members.value)
  }

  /** One entry: its value is read onto what the object holds under its key. */
  function IntoEntry(dump: Dump, e: Value, members: map<string, Json>): Option<map<string, Json>>
    requires e.VEntry?
    decreases e, 0
  {
    var key := Into(dump, e.key, JNull);
    if key.None? then None
    else
      var k := KeyText(dump, key.value);
      var j := Into(dump, e.val, Held(members, k));
      if j.None? then None else Some(members[k := j.value])
  }

  function Held(members: map<string, Json>, k: string): Json {
    if k in members then members[k] else JNull
  }

  ghost function Size(v: Value): (n: nat)
    ensures n > 0
    decreases v, 0
  {
    match v
    case VBasic(_, _) => 1
    case VArray(_, items) => 1 + SizeAll(items)
    case VStruct(fs) => 1 + SizeAll(fs)
    case VEntry(k, w) => 1 + Size(k) + Size(w)
    case VVariant(w) => 1 + Size(w)
  }

  ghost function SizeAll(vs: seq<Value>): nat
    decreases vs, 0
  {
    if vs == [] then 0 else Size(vs[0]) + SizeAll(vs[1..])
  }

  /** The four kinds of container a reader can enter. */
  datatype Container = ArrayOf | DictEntry | StructOf | VariantOf

  predicate IsContainer(v: Value, kind: Container) {
    match kind
    case ArrayOf => v.VArray?
    case DictEntry => v.VEntry?
    case StructOf => v.VStruct?
    case VariantOf => v.VVariant?
  }

  /** The signature of what a container holds; empty for a basic value. */
  function Contents(v: Value): string {
    match v
    case VBasic(_, _) => ""
    case VArray(e, _) => Sig(e)
    case VStruct(fs) => SigAll(TypesOf(fs))
    case VEntry(k, w) => Sig(TypeOf(k)) + Sig(TypeOf(w))
    case VVariant(w) => Sig(TypeOf(w))
  }

  function Children(v: Value): seq<Value> {
    match v
    case VBasic(_, _) => []
    case VArray(_, items) => items
    case VStruct(fs) => fs
    case VEntry(k, w) => [k, w]
    case VVariant(w) => [w]
  }

  const ENXIO: int := 6
  const EBUSY: int := 16

  /** The stack after `n` more values of the innermost container have been read. */
  ghost function Advance(stack: seq<seq<Value>>, n: nat): seq<seq<Value>>
    requires stack != [] && n <= |stack[|stack| - 1]|
  {
    stack[..|stack| - 1] + [stack[|stack| - 1][n..]]
  }

  class Message {
    var stack: seq<seq<Value>>

    constructor (values: seq<Value>)
      ensures stack == [values]
    {
      stack := [values];
    }

    ghost predicate Open()
      reads this
    {
      stack != []
    }

    ghost function Top(): seq<Value>
      requires Open()
      reads this
    {
      stack[|stack| - 1]
    }

    /** `sd_bus_message_read_basic`. */
    method ReadBasic(code: char) returns (r: int, payload: Scalar)
      requires Open()
      modifies this
      ensures r == 0 <==> old(Top()) != [] && old(Top())[0].VBasic? && old(Top())[0].code == code
      ensures r == 0 ==> stack == Advance(old(stack), 1) && payload == old(Top())[0].payload
      ensures r <= 0
    {
      var top := stack[|stack| - 1];
      if top == [] || !top[0].VBasic? || top[0].code != code {
        return -ENXIO, Number(0);
      }
      r, payload := 0, top[0].payload;
      stack := stack[..|stack| - 1] + [top[1..]];
    }

    /** `sd_bus_message_enter_container`: the next value must be such a container, with that content signature. */
    method Enter(kind: Container, contents: string) returns (r: int)
      requires Open()
      modifies this
      ensures r == 0 <==>
              old(Top()) != [] && IsContainer(old(Top())[0], kind) && Contents(old(Top())[0]) == contents
      ensures r == 0 ==> stack == Advance(old(stack), 1) + [Children(old(Top())[0])]
      ensures r <= 0
    {
      var top := stack[|stack| - 1];
      if top == [] || !IsContainer(top[0], kind) || Contents(top[0]) != contents {
        return -ENXIO;
      }
      r := 0;
      stack := stack[..|stack| - 1] + [top[1..]] + [Children(top[0])];
    }

    /** `sd_bus_message_exit_container`: everything in the container must have been read. */
    method Exit() returns (r: int)
      requires |stack| > 1
      modifies this
      ensures r == 0 <==> old(Top()) == []
      ensures r == 0 ==> stack == old(stack)[..|old(stack)| - 1]
      ensures r <= 0
    {
      if stack[|stack| - 1] != [] {
        return -EBUSY;
      }
      r := 0;
      stack := stack[..|stack| - 1];
    }

    /** `sd_bus_message_at_end`. */
    method AtEnd() returns (r: bool)
      requires Open()
      ensures r <==> Top() == []
    {
      r := stack[|stack| - 1] == [];
    }

    /** `sd_bus_message_peek_type`: the content signature of the next value. */
    method PeekContents() returns (r: int, contents: string)
      requires Open()
      ensures r == 0 <==> Top() != []
      ensures r == 0 ==> contents == Contents(Top()[0])
      ensures r <= 0
    {
      var top := stack[|stack| - 1];
      if top == [] {
        return -ENXIO, "";
      }
      r, contents := 0, Contents(top[0]);
    }
  }

  ghost predicate SoundAll(vs: seq<Value>) {
    forall k :: 0 <= k < |vs| ==> Sound(vs[k])
  }

  /** The pieces are the signatures of the next values. */
  ghost predicate Describes(pieces: seq<string>, vs: seq<Value>) {
    |pieces| <= |vs| && forall k :: 0 <= k < |pieces| ==> pieces[k] == Sig(TypeOf(vs[k]))
  }

  /** What `convertDBusToJSON` makes of a response: it leaves it alone, reads one value onto it, or appends several. */
  ghost function Gather(dump: Dump, vs: seq<Value>, target: Json): Option<Json> {
    if vs == [] then Some(target)
    else if |vs| == 1 then Into(dump, vs[0], target)
    else AppendAll(target, IntoAll(dump, vs))
  }

  lemma {:induction false} IntoAllPrefix(dump: Dump, vs: seq<Value>, n: nat)
    requires n <= |vs| && IntoAll(dump, vs[..n]).None?
    ensures IntoAll(dump, vs).None?
    decreases |vs|
  {
    if n == |vs| {
      assert vs[..n] == vs;
    } else {
      assert vs[..|vs| - 1][..n] == vs[..n];
      IntoAllPrefix(dump, vs[..|vs| - 1], n);
    }
  }

  lemma IntoAllNext(dump: Dump, vs: seq<Value>, k: nat)
    requires k < |vs|
    ensures IntoAll(dump, vs[..k + 1]) == Snoc(IntoAll(dump, vs[..k]), Into(dump, vs[k], JNull))
    ensures IntoAll(dump, vs[..0]) == Some([])
  {
    hide Into;
    assert vs[..k + 1][..k] == vs[..k];
  }

  lemma {:induction false} SizeFrom(vs: seq<Value>, k: nat)
    requires k <= |vs|
    ensures SizeAll(vs[k..]) <= SizeAll(vs)
    ensures k < |vs| ==> Size(vs[k]) <= SizeAll(vs[k..])
    decreases k
  {
    if k > 0 {
      SizeFrom(vs, k - 1);
      assert vs[k - 1..][1..] == vs[k..];
    }
    assert k < |vs| ==> vs[k..][0] == vs[k];
  }

  /** Entering a container leaves less to read. */
  lemma ChildrenSmaller(v: Value)
    ensures SizeAll(Children(v)) < Size(v)
  {
    if v.VEntry? {
      assert [v.key, v.val][1..] == [v.val] && [v.val][1..] == [];
      assert SizeAll([v.val]) == Size(v.val) + SizeAll([]);
    } else if v.VVariant? {
      assert [v.inner][1..] == [];
    }
  }

  lemma {:induction false} CompleteIsCoded(t: Type)
    requires Complete(t)
    ensures Coded(t)
    decreases t
  {
    match t
    case Basic(_) =>
    case Array(e) => if e.Entry? { CompleteIsCoded(e.key); CompleteIsCoded(e.val); } else { CompleteIsCoded(e); }
    case Struct(fs) =>
      forall f | f in fs
        ensures Coded(f)
      {
        CompleteIsCoded(f);
      }
    case Variant =>
  }

  /** A complete type's signature is one piece. */
  lemma OnePiece(t: Type)
    requires Coded(t)
    ensures ArgSplit(Sig(t)) == [Sig(t)]
  {
    SplitConcat([t]);
    assert [t][1..] == [];
    assert SigAll([t]) == Sig(t) + "" == Sig(t);
    assert Sigs([t]) == [Sig(t)];
  }

  /** A piece that starts with 'v' is the variant code alone. */
  lemma {:induction false} VariantPiece(rest: string, depth: int, cur: string, k: nat)
    requires k < |SplitRest(rest, depth, cur)| && SplitRest(rest, depth, cur)[k] != ""
    requires SplitRest(rest, depth, cur)[k][0] == 'v'
    requires cur == "" ==> depth == 0
    requires cur != "" ==> (cur == "v" && rest == "") || cur[0] != 'v'
    ensures SplitRest(rest, depth, cur)[k] == "v"
    decreases |rest|
  {
    if rest != "" {
      var piece, d := cur + [rest[0]], DepthAfter(rest[0], depth);
      if Closes(rest[0], depth) && rest[1..] != "" {
        if k > 0 { VariantPiece(rest[1..], d, "", k - 1); }
      } else {
        VariantPiece(rest[1..], d, piece, k);
      }
    }
  }

  lemma PieceOfVariant(s: string, k: nat)
    requires k < |ArgSplit(s)| && ArgSplit(s)[k] != "" && ArgSplit(s)[k][0] == 'v'
    ensures ArgSplit(s)[k] == "v"
  {
    VariantPiece(s, 0, "", k);
  }

  /** The code for an exception of the JSON library, which leaves all readers. */
  const TYPE_ERROR: int := -308

  /** Reads the values described by a signature onto a response. It succeeds exactly when the pieces of the signature are
      the types of the next values and no append throws, and then it has read just those. */
  method ConvertDBusToJSON(dump: Dump, returnType: string, m: Message, target: Json) returns (r: int, response: Json)
    requires m.Open() && SoundAll(m.Top())
    modifies m
    ensures r == 0 <==> Reads(dump, ArgSplit(returnType), old(m.Top()), target)
    ensures r == 0 ==> m.stack == Advance(old(m.stack), |ArgSplit(returnType)|)
    ensures r == 0 ==> Some(response) == Gather(dump, old(m.Top())[..|ArgSplit(returnType)|], target)
    ensures r <= 0
    decreases SizeAll(m.Top()), 3
  {
    var returnTypes := DbusArgSplit(returnType);
    hide *;
    ghost var before, vs := m.stack, m.Top();
    r, response := 0, target;
    ConvertStart(dump, returnTypes, m, target);
    for k := 0 to |returnTypes|
      invariant r == 0 && Converted(dump, returnTypes, before, vs, target, k, m.stack, response)
    {
      PieceFacts(returnType, k);
      ConvertNext(dump, returnTypes, before, vs, target, k, m, response);
      ghost var mid, was := m.stack, response;
      if |returnTypes| > 1 && !Appendable(response) {
        ConvertThrows(dump, returnTypes, before, vs, target, k, m.stack, response);
        return TYPE_ERROR, response;
      }
      var element;
      r, element := ReadType(dump, returnTypes[k], m, Onto(returnTypes, response));
      if r < 0 {
        ConvertStops(dump, returnTypes, before, vs, target, k, mid, was);
        return;
      }
      if |returnTypes| > 1 {
        response := PushBack(response, element);
      } else {
        response := element;
      }
      ConvertStep(dump, returnTypes, before, vs, target, k, mid, was, m.stack, element);
    }
    ConvertDone(dump, returnTypes, before, vs, target, m.stack, response);
  }

  function PushBack(j: Json, x: Json): Json {
    JArr(ItemsOf(j) + [x])
  }

  /** The pieces describe the next values, and these can be read onto the target. */
  ghost predicate Reads(dump: Dump, pieces: seq<string>, vs: seq<Value>, target: Json) {
    Describes(pieces, vs) && Gather(dump, vs[..|pieces|], target).Some?
  }

  /** What is in the response after some of the pieces; `several` says whether there is more than one piece. */
  ghost function Partly(dump: Dump, several: bool, vs: seq<Value>, target: Json): Option<Json> {
    if vs == [] then Some(target) else if several then AppendAll(target, IntoAll(dump, vs)) else Gather(dump, vs, target)
  }

  /** The state of the loop over the pieces. */
  ghost predicate Converted(dump: Dump, pieces: seq<string>, before: seq<seq<Value>>, vs: seq<Value>, target: Json, k: nat,
                            stack: seq<seq<Value>>, response: Json)
  {
    && before != [] && before[|before| - 1] == vs && SoundAll(vs)
    && k <= |pieces| && k <= |vs| && stack == Advance(before, k)
    && (forall j :: 0 <= j < k ==> pieces[j] == Sig(TypeOf(vs[j])))
    && Some(response) == Partly(dump, |pieces| > 1, vs[..k], target)
  }

  lemma ConvertStart(dump: Dump, pieces: seq<string>, m: Message, target: Json)
    requires m.Open() && SoundAll(m.Top())
    ensures Converted(dump, pieces, m.stack, m.Top(), target, 0, m.stack, target)
  {
    assert m.Top()[0..] == m.Top();
  }

  lemma PieceFacts(returnType: string, k: nat)
    requires k < |ArgSplit(returnType)|
    ensures ArgSplit(returnType)[k] != "" && (ArgSplit(returnType)[k][0] == 'v' ==> ArgSplit(returnType)[k] == "v")
  {
    SplitPartitions(returnType);
    if ArgSplit(returnType)[k][0] == 'v' {
      PieceOfVariant(returnType, k);
    }
  }

  /** The type code is the signature of the next value. */
  ghost predicate Matches(typeCode: string, vs: seq<Value>) {
    vs != [] && typeCode == Sig(TypeOf(vs[0]))
  }

  lemma ConvertNext(dump: Dump, pieces: seq<string>, before: seq<seq<Value>>, vs: seq<Value>, target: Json, k: nat,
                    m: Message, response: Json)
    requires Converted(dump, pieces, before, vs, target, k, m.stack, response) && k < |pieces|
    ensures m.Open() && k <= |vs| && m.Top() == vs[k..] && SoundAll(m.Top()) && SizeAll(m.Top()) <= SizeAll(vs)
    ensures m.stack != [] && m.stack[|m.stack| - 1] == vs[k..]
    ensures ReadsOne(dump, pieces[k], m.Top(), Onto(pieces, response)) <==>
            k < |vs| && pieces[k] == Sig(TypeOf(vs[k])) && Into(dump, vs[k], Onto(pieces, response)).Some?
    ensures k < |vs| ==> m.Top()[0] == vs[k]
  {
    hide Into, IntoAll, Partly;
    SizeFrom(vs, k);
    assert forall j :: 0 <= j < |vs[k..]| ==> vs[k..][j] == vs[k + j];
  }

  /** Appending to a response that is neither null nor an array throws. */
  lemma ConvertThrows(dump: Dump, pieces: seq<string>, before: seq<seq<Value>>, vs: seq<Value>, target: Json, k: nat,
                      stack: seq<seq<Value>>, response: Json)
    requires Converted(dump, pieces, before, vs, target, k, stack, response)
    requires |pieces| > 1 && !Appendable(response)
    ensures !Reads(dump, pieces, vs, target) && TYPE_ERROR < 0
  {
    hide IntoAll;
  }

  /** What the k-th piece is read onto. */
  function Onto(pieces: seq<string>, response: Json): Json {
    if |pieces| > 1 then JNull else response
  }

  lemma ConvertStops(dump: Dump, pieces: seq<string>, before: seq<seq<Value>>, vs: seq<Value>, target: Json, k: nat,
                     stack: seq<seq<Value>>, response: Json)
    requires Converted(dump, pieces, before, vs, target, k, stack, response) && k < |pieces|
    requires !(k < |vs| && pieces[k] == Sig(TypeOf(vs[k])) && Into(dump, vs[k], Onto(pieces, response)).Some?)
    ensures !Reads(dump, pieces, vs, target)
  {
    hide Into, IntoAll;
    if Describes(pieces, vs) {
      if |pieces| > 1 {
        IntoAllNext(dump, vs, k);
        var all := vs[..|pieces|];
        assert all[..k + 1] == vs[..k + 1];
        IntoAllPrefix(dump, all, k + 1);
      } else {
        assert vs[..0] == [] && vs[..1] == [vs[0]];
      }
    }
  }

  lemma ConvertStep(dump: Dump, pieces: seq<string>, before: seq<seq<Value>>, vs: seq<Value>, target: Json, k: nat,
                    mid: seq<seq<Value>>, response: Json, stack: seq<seq<Value>>, element: Json)
    requires Converted(dump, pieces, before, vs, target, k, mid, response) && k < |pieces| && k < |vs|
    requires pieces[k] == Sig(TypeOf(vs[k])) && Some(element) == Into(dump, vs[k], Onto(pieces, response))
    requires |pieces| > 1 ==> Appendable(response)
    requires mid != [] && mid[|mid| - 1] == vs[k..] && stack == Advance(mid, 1)
    ensures Converted(dump, pieces, before, vs, target, k + 1, stack,
                      if |pieces| > 1 then PushBack(response, element) else element)
  {
    hide Into, IntoAll;
    assert vs[k..][1..] == vs[k + 1..];
    assert stack == Advance(before, k + 1);
    if |pieces| > 1 {
      IntoAllNext(dump, vs, k);
      if k > 0 {
        var js := IntoAll(dump, vs[..k]).value;
        assert ItemsOf(target) + js + [element] == ItemsOf(target) + (js + [element]);
      } else {
        assert vs[..0] == [] && [] + [element] == [element];
      }
    } else {
      assert vs[..0] == [] && vs[..1] == [vs[0]];
    }
  }

  lemma ConvertDone(dump: Dump, pieces: seq<string>, before: seq<seq<Value>>, vs: seq<Value>, target: Json,
                    stack: seq<seq<Value>>, response: Json)
    requires Converted(dump, pieces, before, vs, target, |pieces|, stack, response)
    ensures Reads(dump, pieces, vs, target) && stack == Advance(before, |pieces|)
    ensures Some(response) == Gather(dump, vs[..|pieces|], target)
  {
    hide Into, IntoAll;
  }

  /** The next value has this type and can be read onto the target. */
  ghost predicate ReadsOne(dump: Dump, typeCode: string, vs: seq<Value>, target: Json) {
    Matches(typeCode, vs) && Into(dump, vs[0], target).Some?
  }

  /** One complete type: the chain of type codes. */
  method ReadType(dump: Dump, typeCode: string, m: Message, target: Json) returns (r: int, data: Json)
    requires m.Open() && SoundAll(m.Top())
    requires typeCode != "" && (typeCode[0] == 'v' ==> typeCode == "v")
    modifies m
    ensures r == 0 <==> ReadsOne(dump, typeCode, old(m.Top()), target)
    ensures r == 0 ==> m.stack == Advance(old(m.stack), 1) && Some(data) == Into(dump, old(m.Top())[0], target)
    ensures r <= 0
    decreases SizeAll(m.Top()), 2
  {
    hide IntoAll, IntoMembers;
    data := target;
    if |typeCode| == 1 && IsBasicCode(typeCode[0]) {
      BasicMatches(typeCode[0], m.Top());
      var payload;
      r, payload := m.ReadBasic(typeCode[0]);
      if r == 0 {
        data := ScalarJson(typeCode[0], payload);
      }
    } else if typeCode[0] == 'a' {
      r, data := ReadArray(dump, typeCode, m, target);
    } else if typeCode[0] == '(' && typeCode[|typeCode| - 1] == ')' {
      r, data := ReadStruct(dump, typeCode, m, target);
    } else if typeCode[0] == 'v' {
      r, data := ReadVariant(dump, m, target);
    } else {
      if m.Top() != [] { SigForms(m.Top()[0]); }
      r := -2;
    }
  }

  lemma BasicMatches(code: char, vs: seq<Value>)
    requires IsBasicCode(code) && SoundAll(vs)
    ensures Matches([code], vs) <==> vs != [] && vs[0].VBasic? && vs[0].code == code
  {
    if vs != [] { SigForms(vs[0]); }
  }

  /** The shapes a signature can have. */
  lemma SigForms(v: Value)
    requires Sound(v)
    ensures var s := Sig(TypeOf(v));
            match v
            case VBasic(c, _) => s == [c] && IsBasicCode(c)
            case VArray(e, _) => s == "a" + Sig(e) && |s| >= 2
            case VStruct(fs) => s == "(" + SigAll(TypesOf(fs)) + ")" && |s| >= 3 && s[0] == '(' && s[|s| - 1] == ')'
            case VVariant(_) => s == "v"
            case VEntry(_, _) => false
  {
    if v.VStruct? {
      var ts := TypesOf(v.fields);
      assert ts != [] && SigAll(ts) == Sig(ts[0]) + SigAll(ts[1..]);
    }
  }

  lemma AdvanceTop(base: seq<seq<Value>>, top: seq<Value>, n: nat)
    requires n <= |top|
    ensures Advance(base + [top], n) == base + [top[n..]]
  {
    assert (base + [top])[..|base + [top]| - 1] == base;
  }

  /** Reading with the signature of the next value reads that value. */
  lemma SingleRead(dump: Dump, vs: seq<Value>, target: Json)
    requires vs != [] && Sound(vs[0])
    ensures |ArgSplit(Sig(TypeOf(vs[0])))| == 1
    ensures Reads(dump, ArgSplit(Sig(TypeOf(vs[0]))), vs, target) <==> Into(dump, vs[0], target).Some?
    ensures Gather(dump, vs[..1], target) == Into(dump, vs[0], target)
  {
    hide Into;
    CompleteIsCoded(TypeOf(vs[0]));
    OnePiece(TypeOf(vs[0]));
  }

  method ReadVariant(dump: Dump, m: Message, target: Json) returns (r: int, data: Json)
    requires m.Open() && SoundAll(m.Top())
    modifies m
    ensures r == 0 <==> ReadsOne(dump, "v", old(m.Top()), target)
    ensures r == 0 ==> m.stack == Advance(old(m.stack), 1) && Some(data) == Into(dump, old(m.Top())[0], target)
    ensures r <= 0
    decreases SizeAll(m.Top()), 1
  {
    ghost var before, vs := m.stack, m.Top();
    VariantFacts(dump, vs, target);
    hide SoundAll, Sound, Describes, Gather, Reads, ArgSplit, Sig, TypeOf, Into, SizeAll, Matches;
    data := target;
    var containerType;
    r, containerType := m.PeekContents();
    if r < 0 {
      return;
    }
    r := m.Enter(VariantOf, containerType);
    if r < 0 {
      return;
    }
    AdvanceTop(Advance(before, 1), [vs[0].inner], 1);
    r, data := ConvertDBusToJSON(dump, containerType, m, target);
    if r < 0 {
      return;
    }
    r := m.Exit();
  }

  lemma VariantFacts(dump: Dump, vs: seq<Value>, target: Json)
    requires SoundAll(vs)
    ensures Matches("v", vs) <==> vs != [] && vs[0].VVariant?
    ensures Matches("v", vs) ==>
              var w := vs[0].inner;
              && SoundAll([w]) && SizeAll([w]) < SizeAll(vs) && |ArgSplit(Sig(TypeOf(w)))| == 1
              && (Reads(dump, ArgSplit(Sig(TypeOf(w))), [w], target) <==> Into(dump, vs[0], target).Some?)
              && Gather(dump, [w][..1], target) == Into(dump, vs[0], target)
  {
    if vs != [] {
      SigForms(vs[0]);
      if vs[0].VVariant? {
        SingleRead(dump, [vs[0].inner], target);
        ChildrenSmaller(vs[0]);
      }
    }
  }

  method ReadStruct(dump: Dump, typeCode: string, m: Message, target: Json) returns (r: int, data: Json)
    requires m.Open() && SoundAll(m.Top()) && typeCode != ""
    requires typeCode[0] == '(' && typeCode[|typeCode| - 1] == ')'
    modifies m
    ensures r == 0 <==> ReadsOne(dump, typeCode, old(m.Top()), target)
    ensures r == 0 ==> m.stack == Advance(old(m.stack), 1) && Some(data) == Into(dump, old(m.Top())[0], target)
    ensures r <= 0
    decreases SizeAll(m.Top()), 1
  {
    ghost var before, vs := m.stack, m.Top();
    StructFacts(dump, typeCode, vs, target);
    hide SoundAll, Sound, Describes, Gather, ArgSplit, Sig, TypeOf, Into, IntoAll, AppendAll, SizeAll, Matches;
    data := target;
    if |typeCode| < 3 {
      return -1, data;
    }
    var containedTypes := typeCode[1..|typeCode| - 1];
    var types := DbusArgSplit(containedTypes);
    r := m.Enter(StructOf, containedTypes);
    if r < 0 {
      return;
    }
    r, data := ReadFields(dump, types, m, target, Advance(before, 1), vs[0].fields);
    if r < 0 {
      return;
    }
    r := m.Exit();
  }

  /** The loop over the fields of a struct that has been entered. */
  method ReadFields(dump: Dump, types: seq<string>, m: Message, target: Json, ghost base: seq<seq<Value>>,
                    ghost fs: seq<Value>) returns (r: int, data: Json)
    requires SoundAll(fs) && fs != [] && types == Sigs(TypesOf(fs)) && m.stack == base + [fs]
    modifies m
    ensures r == 0 <==> AppendAll(target, IntoAll(dump, fs)).Some?
    ensures r == 0 ==> m.stack == base + [[]] && Some(data) == AppendAll(target, IntoAll(dump, fs))
    ensures r <= 0
    decreases SizeAll(fs), 4
  {
    hide SoundAll, Sound, Describes, Reads, Gather, ArgSplit, Sig, TypeOf, TypesOf, Into, IntoAll, SizeAll, Advance;
    r, data := 0, target;
    assert fs[0..] == fs;
    for k := 0 to |types|
      invariant r == 0 && m.stack == base + [fs[k..]]
      invariant if k == 0 then data == target else Some(data) == AppendAll(target, IntoAll(dump, fs[..k]))
    {
      if !Appendable(data) {
        return TYPE_ERROR, data;
      }
      FieldFacts(dump, fs, k);
      AdvanceTop(base, fs[k..], 1);
      var element;
      r, element := ConvertDBusToJSON(dump, types[k], m, JNull);
      if r < 0 {
        IntoAllPrefix(dump, fs, k + 1);
        return;
      }
      ghost var was := data;
      data := PushBack(data, element);
      AppendNext(dump, target, fs, k, was, element);
    }
    assert fs[..|fs|] == fs && fs[|fs|..] == [];
  }

  lemma AppendNext(dump: Dump, target: Json, fs: seq<Value>, k: nat, was: Json, element: Json)
    requires k < |fs| && Appendable(was) && Into(dump, fs[k], JNull) == Some(element)
    requires if k == 0 then was == target else Some(was) == AppendAll(target, IntoAll(dump, fs[..k]))
    ensures Some(PushBack(was, element)) == AppendAll(target, IntoAll(dump, fs[..k + 1]))
  {
    hide Into, IntoAll;
    IntoAllNext(dump, fs, k);
    if k > 0 {
      var js := IntoAll(dump, fs[..k]).value;
      assert ItemsOf(target) + js + [element] == ItemsOf(target) + (js + [element]);
    } else {
      assert [] + [element] == [element];
    }
  }

  lemma StructFacts(dump: Dump, typeCode: string, vs: seq<Value>, target: Json)
    requires SoundAll(vs) && typeCode != "" && typeCode[0] == '(' && typeCode[|typeCode| - 1] == ')'
    ensures |typeCode| < 3 ==> !Matches(typeCode, vs)
    ensures |typeCode| >= 3 ==>
              (Matches(typeCode, vs) <==>
                 vs != [] && vs[0].VStruct? && Contents(vs[0]) == typeCode[1..|typeCode| - 1])
    ensures |typeCode| >= 3 && Matches(typeCode, vs) ==>
              var fs := vs[0].fields;
              && SoundAll(fs) && fs != [] && SizeAll(fs) < SizeAll(vs)
              && ArgSplit(typeCode[1..|typeCode| - 1]) == Sigs(TypesOf(fs))
              && Into(dump, vs[0], target) == AppendAll(target, IntoAll(dump, fs))
  {
    if vs != [] {
      SigForms(vs[0]);
      if |typeCode| >= 3 {
        assert typeCode == "(" + typeCode[1..|typeCode| - 1] + ")";
        if vs[0].VStruct? {
          var fs := vs[0].fields;
          var s := Sig(TypeOf(vs[0]));
          assert s[1..|s| - 1] == SigAll(TypesOf(fs));
          forall t | t in TypesOf(fs)
            ensures Coded(t)
          {
            CompleteIsCoded(t);
          }
          SplitConcat(TypesOf(fs));
          ChildrenSmaller(vs[0]);
        }
      }
    }
  }

  lemma {:induction false} TypesOfAt(vs: seq<Value>, k: nat)
    requires k < |vs|
    ensures TypesOf(vs)[k] == TypeOf(vs[k])
    decreases k
  {
    if k > 0 { TypesOfAt(vs[1..], k - 1); }
  }

  lemma FieldFacts(dump: Dump, fs: seq<Value>, k: nat)
    requires k < |fs| && SoundAll(fs)
    ensures SoundAll(fs[k..]) && SizeAll(fs[k..]) <= SizeAll(fs)
    ensures Sigs(TypesOf(fs))[k] == Sig(TypeOf(fs[k])) && fs[k..][0] == fs[k] && fs[k..][1..] == fs[k + 1..]
    ensures |ArgSplit(Sig(TypeOf(fs[k])))| == 1
    ensures Reads(dump, ArgSplit(Sig(TypeOf(fs[k]))), fs[k..], JNull) <==> Into(dump, fs[k], JNull).Some?
    ensures Gather(dump, fs[k..][..1], JNull) == Into(dump, fs[k], JNull)
    ensures IntoAll(dump, fs[..k + 1]) == Snoc(IntoAll(dump, fs[..k]), Into(dump, fs[k], JNull))
  {
    hide Into, IntoAll;
    TypesOfAt(fs, k);
    SizeFrom(fs, k);
    SingleRead(dump, fs[k..], JNull);
    IntoAllNext(dump, fs, k);
  }

  method ReadArray(dump: Dump, typeCode: string, m: Message, target: Json) returns (r: int, data: Json)
    requires m.Open() && SoundAll(m.Top()) && typeCode != "" && typeCode[0] == 'a'
    modifies m
    ensures r == 0 <==> ReadsOne(dump, typeCode, old(m.Top()), target)
    ensures r == 0 ==> m.stack == Advance(old(m.stack), 1) && Some(data) == Into(dump, old(m.Top())[0], target)
    ensures r <= 0
    decreases SizeAll(m.Top()), 1
  {
    ghost var before, vs := m.stack, m.Top();
    ArrayFacts(typeCode, vs);
    hide SoundAll, Sound, ArgSplit, Sig, TypeOf, Into, IntoAll, IntoMembers, SizeAll, Matches;
    data := target;
    if |typeCode| < 2 {
      return -1, data;
    }
    var containedType := typeCode[1..];
    r := m.Enter(ArrayOf, containedType);
    if r < 0 {
      return;
    }
    r, data := ReadElements(dump, containedType, m, target, Advance(before, 1), vs[0]);
    if r < 0 {
      return;
    }
    r := m.Exit();
  }

  /** What an array holds that has been entered: the entries of a dictionary, or elements. */
  method ReadElements(dump: Dump, elementType: string, m: Message, ghost target: Json, ghost base: seq<seq<Value>>,
                      ghost v: Value) returns (r: int, data: Json)
    requires v.VArray? && Sound(v) && elementType == Sig(v.elem) && m.stack == base + [v.items]
    modifies m
    ensures r == 0 <==> Into(dump, v, target).Some?
    ensures r == 0 ==> m.stack == base + [[]] && Some(data) == Into(dump, v, target)
    ensures r <= 0
    decreases SizeAll(v.items), 5
  {
    ElementSig(v.elem);
    hide Sound, Sig, TypeOf, IntoAll, IntoMembers, SizeAll;
    var containedType := elementType;
    var dict := containedType[0] == '{' && containedType[|containedType| - 1] == '}';
    if dict {
      containedType := containedType[1..|containedType| - 1];
      r, data := ReadEntries(dump, containedType, m, base, v.elem, v.items);
    } else {
      r, data := ReadItems(dump, containedType, m, base, v.elem, v.items);
    }
  }

  lemma ArrayFacts(typeCode: string, vs: seq<Value>)
    requires SoundAll(vs) && typeCode != "" && typeCode[0] == 'a'
    ensures |typeCode| < 2 ==> !Matches(typeCode, vs)
    ensures |typeCode| >= 2 ==>
              (Matches(typeCode, vs) <==> vs != [] && vs[0].VArray? && Contents(vs[0]) == typeCode[1..])
    ensures |typeCode| >= 2 && Matches(typeCode, vs) ==>
              Sound(vs[0]) && SizeAll(vs[0].items) < SizeAll(vs) && typeCode[1..] == Sig(vs[0].elem)
  {
    if vs != [] {
      SigForms(vs[0]);
      if |typeCode| >= 2 {
        assert typeCode == "a" + typeCode[1..];
        if vs[0].VArray? {
          assert ("a" + Sig(vs[0].elem))[1..] == Sig(vs[0].elem);
          ChildrenSmaller(vs[0]);
        }
      }
    }
  }

  /** Only a dictionary entry's signature stands in braces. */
  lemma ElementSig(e: Type)
    requires Complete(Array(e))
    ensures e.Entry? <==> Sig(e)[0] == '{' && Sig(e)[|Sig(e)| - 1] == '}'
    ensures e.Entry? ==> |Sig(e)| >= 2 && Sig(e)[1..|Sig(e)| - 1] == Sig(e.key) + Sig(e.val)
  {
    match e
    case Entry(k, v) => InBraces(Sig(e), Sig(k) + Sig(v));
    case Basic(c) => assert Sig(e)[0] == c != '{';
    case Array(_) => assert Sig(e)[0] == 'a';
    case Struct(_) => assert Sig(e)[0] == '(';
    case Variant => assert Sig(e)[0] == 'v';
  }

  lemma InBraces(s: string, inner: string)
    requires s == "{" + inner + "}"
    ensures |s| >= 2 && s[0] == '{' && s[|s| - 1] == '}' && s[1..|s| - 1] == inner
  {
  }

  /** The loop over the elements of an array that has been entered. */
  method ReadItems(dump: Dump, containedType: string, m: Message, ghost base: seq<seq<Value>>, ghost e: Type,
                   ghost items: seq<Value>) returns (r: int, data: Json)
    requires Sound(VArray(e, items)) && !e.Entry? && containedType == Sig(e) && m.stack == base + [items]
    modifies m
    ensures r == 0 <==> IntoAll(dump, items).Some?
    ensures r == 0 ==> m.stack == base + [[]] && Some(data) == ArrayOfJson(IntoAll(dump, items))
    ensures r <= 0
    decreases SizeAll(items), 4
  {
    ItemsSound(dump, e, items);
    hide SoundAll, Sound, Describes, Reads, Gather, ArgSplit, Sig, TypeOf, TypesOf, Into, IntoAll, SizeAll, Advance;
    r, data := 0, JArr([]);
    ghost var k := 0;
    assert items[0..] == items;
    while true
      invariant k <= |items| && r == 0 && m.stack == base + [items[k..]]
      invariant Some(data) == ArrayOfJson(IntoAll(dump, items[..k]))
      decreases |items| - k
    {
      var end := m.AtEnd();
      if end {
        break;
      }
      FieldFacts(dump, items, k);
      AdvanceTop(base, items[k..], 1);
      var element;
      r, element := ConvertDBusToJSON(dump, containedType, m, JNull);
      if r < 0 {
        IntoAllPrefix(dump, items, k + 1);
        return;
      }
      data := PushBack(data, element);
      k := k + 1;
    }
    assert items[..|items|] == items && items[|items|..] == [];
  }

  lemma ItemsSound(dump: Dump, e: Type, items: seq<Value>)
    requires Sound(VArray(e, items)) && !e.Entry?
    ensures SoundAll(items) && IntoAll(dump, items[..0]) == Some([])
    ensures forall k :: 0 <= k < |items| ==> Sig(TypeOf(items[k])) == Sig(e)
  {
  }

  /** The loop over the entries of a dictionary that has been entered. */
  method ReadEntries(dump: Dump, containedType: string, m: Message, ghost base: seq<seq<Value>>, ghost e: Type,
                     ghost items: seq<Value>) returns (r: int, data: Json)
    requires Sound(VArray(e, items)) && e.Entry? && containedType == Sig(e.key) + Sig(e.val)
    requires m.stack == base + [items]
    modifies m
    ensures r == 0 <==> IntoMembers(dump, items).Some?
    ensures r == 0 ==> m.stack == base + [[]] && Some(data) == ObjectOf(IntoMembers(dump, items))
    ensures r <= 0
    decreases SizeAll(items), 4
  {
    hide Sound, ArgSplit, Sig, TypeOf, Into, IntoMembers, IntoEntry, SizeAll, Advance;
    EntriesStart(dump, items);
    r, data := 0, JObj(map[]);
    ghost var k := 0;
    assert items[0..] == items;
    while true
      invariant k <= |items| && r == 0 && m.stack == base + [items[k..]]
      invariant Some(data) == ObjectOf(IntoMembers(dump, items[..k]))
      decreases |items| - k
    {
      var end := m.AtEnd();
      if end {
        break;
      }
      EntryFacts(dump, e, items, k);
      AdvanceTop(base, items[k..], 1);
      r, data := ReadDictEntry(dump, containedType, m, data);
      if r < 0 {
        MembersPrefix(dump, items, k + 1);
        return;
      }
      k := k + 1;
    }
    assert items[..|items|] == items && items[|items|..] == [];
  }

  lemma EntriesStart(dump: Dump, items: seq<Value>)
    ensures IntoMembers(dump, items[..0]) == Some(map[])
  {
  }

  lemma {:induction false} MembersPrefix(dump: Dump, vs: seq<Value>, n: nat)
    requires n <= |vs| && IntoMembers(dump, vs[..n]).None?
    ensures IntoMembers(dump, vs).None?
    decreases |vs|
  {
    hide IntoEntry;
    if n == |vs| {
      assert vs[..n] == vs;
    } else {
      assert vs[..|vs| - 1][..n] == vs[..n];
      MembersPrefix(dump, vs[..|vs| - 1], n);
    }
  }

  lemma MembersNext(dump: Dump, items: seq<Value>, k: nat)
    requires k < |items| && items[k].VEntry?
    ensures IntoMembers(dump, items[..k + 1]) ==
            if IntoMembers(dump, items[..k]).None? then None
            else IntoEntry(dump, items[k], IntoMembers(dump, items[..k]).value)
  {
    hide IntoEntry;
    assert items[..k + 1][..k] == items[..k] && items[..k + 1][k] == items[k];
  }

  lemma EntryFacts(dump: Dump, e: Type, items: seq<Value>, k: nat)
    requires Sound(VArray(e, items)) && e.Entry? && k < |items|
    ensures items[k..][0] == items[k] && items[k..][1..] == items[k + 1..] && SizeAll(items[k..]) <= SizeAll(items)
    ensures items[k].VEntry? && Sound(items[k].key) && Sound(items[k].val)
    ensures Contents(items[k]) == Sig(e.key) + Sig(e.val)
    ensures IntoMembers(dump, items[..k + 1]) ==
            if IntoMembers(dump, items[..k]).None? then None
            else IntoEntry(dump, items[k], IntoMembers(dump, items[..k]).value)
  {
    hide IntoEntry, IntoMembers;
    SizeFrom(items, k);
    assert TypeOf(items[k]) == e;
    MembersNext(dump, items, k);
  }

  /** One dictionary entry: key, then value, onto what the object holds under that key. */
  method ReadDictEntry(dump: Dump, typeCode: string, m: Message, target: Json) returns (r: int, data: Json)
    requires m.Open() && target.JObj?
    requires m.Top() != [] ==> m.Top()[0].VEntry? && Sound(m.Top()[0].key) && Sound(m.Top()[0].val)
    modifies m
    ensures r == 0 <==>
            && old(m.Top()) != [] && Contents(old(m.Top())[0]) == typeCode
            && IntoEntry(dump, old(m.Top())[0], target.members).Some?
    ensures r == 0 ==> m.stack == Advance(old(m.stack), 1)
    ensures r == 0 ==> Some(data) == ObjectOf(IntoEntry(dump, old(m.Top())[0], target.members))
    ensures r <= 0
    decreases SizeAll(m.Top()), 1
  {
    ghost var before, vs := m.stack, m.Top();
    PairFacts(typeCode, vs);
    hide Sound, SoundAll, Describes, Reads, Gather, ArgSplit, Sig, TypeOf, Into, IntoEntry, SizeAll, Contents;
    data := target;
    var types := DbusArgSplit(typeCode);
    if |types| != 2 {
      return -1, data;
    }
    r := m.Enter(DictEntry, typeCode);
    if r < 0 {
      return;
    }
    r, data := ReadPair(dump, types[0], types[1], m, target.members, Advance(before, 1), vs[0]);
    if r < 0 {
      return;
    }
    r := m.Exit();
  }

  /** The key and the value of an entry that has been entered. */
  method ReadPair(dump: Dump, keyType: string, valueType: string, m: Message, members: map<string, Json>,
                  ghost base: seq<seq<Value>>, ghost e: Value) returns (r: int, data: Json)
    requires e.VEntry? && Sound(e.key) && Sound(e.val) && m.stack == base + [[e.key, e.val]]
    requires keyType == Sig(TypeOf(e.key)) && valueType == Sig(TypeOf(e.val))
    modifies m
    ensures r == 0 <==> IntoEntry(dump, e, members).Some?
    ensures r == 0 ==> m.stack == base + [[]] && Some(data) == ObjectOf(IntoEntry(dump, e, members))
    ensures r <= 0
    decreases SizeAll([e.key, e.val]), 4
  {
    PairSizes(e);
    SingleRead(dump, [e.key, e.val], JNull);
    hide Sound, Describes, Reads, Gather, ArgSplit, Sig, TypeOf, Into, SizeAll;
    data := JObj(members);
    AdvanceTop(base, [e.key, e.val], 1);
    AdvanceTop(base, [e.val], 1);
    var key, value;
    r, key := ConvertDBusToJSON(dump, keyType, m, JNull);
    if r < 0 {
      return;
    }
    var keyText := KeyText(dump, key);
    SingleRead(dump, [e.val], Held(members, keyText));
    r, value := ConvertDBusToJSON(dump, valueType, m, Held(members, keyText));
    if r < 0 {
      return;
    }
    data := JObj(members[keyText := value]);
  }

  lemma PairSizes(e: Value)
    requires e.VEntry? && Sound(e.key) && Sound(e.val)
    ensures [e.key, e.val][1..] == [e.val] && [e.val][1..] == [] && SizeAll([e.val]) < SizeAll([e.key, e.val])
    ensures SoundAll([e.key, e.val]) && SoundAll([e.val])
  {
    assert SizeAll([e.key, e.val]) == Size(e.key) + SizeAll([e.key, e.val][1..]);
  }

  lemma PairFacts(typeCode: string, vs: seq<Value>)
    requires vs != [] ==> vs[0].VEntry? && Sound(vs[0].key) && Sound(vs[0].val)
    ensures vs != [] && Contents(vs[0]) == typeCode ==>
              && ArgSplit(typeCode) == [Sig(TypeOf(vs[0].key)), Sig(TypeOf(vs[0].val))]
              && SizeAll([vs[0].key, vs[0].val]) < SizeAll(vs)
  {
    if vs != [] && Contents(vs[0]) == typeCode {
      var k, w := vs[0].key, vs[0].val;
      CompleteIsCoded(TypeOf(k));
      CompleteIsCoded(TypeOf(w));
      EntrySig(TypeOf(k), TypeOf(w));
      SplitConcat([TypeOf(k), TypeOf(w)]);
      assert Sigs([TypeOf(k), TypeOf(w)]) == [Sig(TypeOf(k)), Sig(TypeOf(w))];
      ChildrenSmaller(vs[0]);
    }
  }

  /** The signature describes the next values exactly when it is the concatenation of their types. */
  lemma DescribesIsSignature(sig: string, vs: seq<Value>)
    requires SoundAll(vs)
    ensures Describes(ArgSplit(sig), vs) <==> exists n: nat :: n <= |vs| && sig == SigAll(TypesOf(vs[..n]))
    ensures forall n: nat :: n <= |vs| && sig == SigAll(TypesOf(vs[..n])) ==> |ArgSplit(sig)| == n
  {
    forall n: nat | n <= |vs| && sig == SigAll(TypesOf(vs[..n]))
      ensures |ArgSplit(sig)| == n && Describes(ArgSplit(sig), vs)
    {
      PrefixSplits(vs, n);
    }
    if Describes(ArgSplit(sig), vs) {
      var n := |ArgSplit(sig)|;
      SplitPartitions(sig);
      PrefixJoins(ArgSplit(sig), vs[..n]);
    }
  }

  lemma PrefixSplits(vs: seq<Value>, n: nat)
    requires SoundAll(vs) && n <= |vs|
    ensures |ArgSplit(SigAll(TypesOf(vs[..n])))| == n && Describes(ArgSplit(SigAll(TypesOf(vs[..n]))), vs)
  {
    var ts := TypesOf(vs[..n]);
    forall k | 0 <= k < n
      ensures ts[k] == TypeOf(vs[k]) && Coded(ts[k])
    {
      TypesOfAt(vs[..n], k);
      CompleteIsCoded(TypeOf(vs[k]));
    }
    SplitConcat(ts);
  }

  lemma {:induction false} PrefixJoins(pieces: seq<string>, vs: seq<Value>)
    requires |pieces| == |vs| && forall k :: 0 <= k < |vs| ==> pieces[k] == Sig(TypeOf(vs[k]))
    ensures Join(pieces) == SigAll(TypesOf(vs))
    decreases |vs|
  {
    if vs != [] {
      PrefixJoins(pieces[1..], vs[1..]);
      assert TypesOf(vs)[1..] == TypesOf(vs[1..]);
    }
  }

  /** The key of an entry, as text. */
  function EntryKey(dump: Dump, e: Value): Option<string>
    requires e.VEntry?
  {
    var key := Into(dump, e.key, JNull);
    if key.None? then None else Some(KeyText(dump, key.value))
  }

  ghost predicate DistinctKeys(dump: Dump, items: seq<Value>) {
    forall k, m :: 0 <= k < m < |items| && items[k].VEntry? && items[m].VEntry? ==>
      EntryKey(dump, items[k]) != EntryKey(dump, items[m])
  }

  /** The last step of reading a dictionary. */
  lemma LastEntry(dump: Dump, items: seq<Value>)
    requires items != [] && IntoMembers(dump, items).Some?
    ensures
      var front, last := items[..|items| - 1], items[|items| - 1];
      && IntoMembers(dump, front).Some? && last.VEntry? && EntryKey(dump, last).Some?
      && var members, key := IntoMembers(dump, front).value, EntryKey(dump, last).value;
         var j := Into(dump, last.val, Held(members, key));
         j.Some? && IntoMembers(dump, items) == Some(members[key := j.value])
  {
    hide Into, KeyText, Held;
  }

  /** The object's keys are those of the entries. */
  lemma {:induction false} DictKeys(dump: Dump, items: seq<Value>)
    requires IntoMembers(dump, items).Some?
    ensures forall k :: 0 <= k < |items| ==>
              items[k].VEntry? && EntryKey(dump, items[k]).Some? &&
              EntryKey(dump, items[k]).value in IntoMembers(dump, items).value
    ensures forall key :: key in IntoMembers(dump, items).value ==>
              exists k :: 0 <= k < |items| && items[k].VEntry? && EntryKey(dump, items[k]) == Some(key)
    decreases |items|
  {
    if items != [] {
      LastEntry(dump, items);
      hide Into, IntoMembers, EntryKey, Held;
      var n := |items| - 1;
      var front := items[..n];
      DictKeys(dump, front);
      forall key | key in IntoMembers(dump, items).value
        ensures exists k :: 0 <= k < |items| && items[k].VEntry? && EntryKey(dump, items[k]) == Some(key)
      {
        if key in IntoMembers(dump, front).value {
          var k :| 0 <= k < |front| && front[k].VEntry? && EntryKey(dump, front[k]) == Some(key);
          assert items[k] == front[k];
        } else {
          assert EntryKey(dump, items[n]) == Some(key);
        }
      }
      forall k | 0 <= k < |items|
        ensures items[k].VEntry? && EntryKey(dump, items[k]).Some? &&
                EntryKey(dump, items[k]).value in IntoMembers(dump, items).value
      {
        if k < n {
          assert items[k] == front[k];
        }
      }
    }
  }

  lemma DistinctNext(dump: Dump, items: seq<Value>)
    requires items != [] && IntoMembers(dump, items).Some?
    ensures
      var n := |items| - 1;
      && items[n].VEntry? && EntryKey(dump, items[n]).Some? && IntoMembers(dump, items[..n]).Some?
      && (DistinctKeys(dump, items) <==>
            DistinctKeys(dump, items[..n]) && EntryKey(dump, items[n]).value !in IntoMembers(dump, items[..n]).value)
  {
    LastEntry(dump, items);
    hide Into, IntoMembers, EntryKey, Held;
    var n := |items| - 1;
    var front := items[..n];
    DictKeys(dump, front);
    assert forall k :: 0 <= k < n ==> front[k] == items[k];
    if EntryKey(dump, items[n]).value in IntoMembers(dump, front).value {
      var k :| 0 <= k < n && front[k].VEntry? && EntryKey(dump, front[k]) == EntryKey(dump, items[n]);
      assert items[k].VEntry? && EntryKey(dump, items[k]) == EntryKey(dump, items[n]);
    }
  }

  lemma {:induction false} DictCounts(dump: Dump, items: seq<Value>)
    requires IntoMembers(dump, items).Some?
    ensures |IntoMembers(dump, items).value| <= |items|
    ensures |IntoMembers(dump, items).value| == |items| <==> DistinctKeys(dump, items)
    ensures DistinctKeys(dump, items) ==> forall k :: 0 <= k < |items| ==>
              && items[k].VEntry? && EntryKey(dump, items[k]).Some?
              && EntryKey(dump, items[k]).value in IntoMembers(dump, items).value
              && Into(dump, items[k].val, JNull) == Some(IntoMembers(dump, items).value[EntryKey(dump, items[k]).value])
    decreases |items|
  {
    if items == [] {
      assert DistinctKeys(dump, items);
    } else {
      LastEntry(dump, items);
      DistinctNext(dump, items);
      hide Into, IntoMembers, EntryKey, DistinctKeys;
      var n := |items| - 1;
      var front := items[..n];
      DictCounts(dump, front);
      assert forall k :: 0 <= k < n ==> front[k] == items[k];
    }
  }

  /** An array keeps its elements and a struct its fields, in place. */
  lemma {:induction false} ArrayKeepsItems(dump: Dump, vs: seq<Value>, k: nat)
    requires k < |vs| && IntoAll(dump, vs).Some?
    ensures Into(dump, vs[k], JNull) == Some(IntoAll(dump, vs).value[k])
    decreases |vs|
  {
    if k < |vs| - 1 { ArrayKeepsItems(dump, vs[..|vs| - 1], k); }
  }

  /** What a value holds behind its variants. */
  function Strip(v: Value): Value {
    match v
    case VVariant(w) => Strip(w)
    case VEntry(_, w) => Strip(w)
    case _ => v
  }

  /** A value that becomes something no element can be appended to: a scalar or an object. */
  predicate Blocks(v: Value) {
    Strip(v).VBasic? || (Strip(v).VArray? && Strip(v).elem.Entry?)
  }

  /** The value of the last entry with this key. */
  function LastOf(dump: Dump, items: seq<Value>, key: string): Option<Value>
    decreases |items|
  {
    if items == [] then None
    else
      var last := items[|items| - 1];
      if last.VEntry? && EntryKey(dump, last) == Some(key) then Some(last.val) else LastOf(dump, items[..|items| - 1], key)
  }

  /** Entry `m` is a struct, and the last entry of its key before it blocks. */
  ghost predicate ClashAt(dump: Dump, items: seq<Value>, m: nat)
    requires m < |items|
  {
    items[m].VEntry? && Strip(items[m].val).VStruct? && EntryKey(dump, items[m]).Some? &&
    var before := LastOf(dump, items[..m], EntryKey(dump, items[m]).value);
    before.Some? && Blocks(before.value)
  }

  ghost predicate Clashes(dump: Dump, items: seq<Value>) {
    exists m :: 0 <= m < |items| && ClashAt(dump, items, m)
  }

  /** Somewhere in the value, a struct follows a scalar or an object under one key of a dictionary. */
  ghost predicate Throws(dump: Dump, v: Value)
    decreases v, 0
  {
    match v
    case VBasic(_, _) => false
    case VArray(e, items) => (exists k :: 0 <= k < |items| && Throws(dump, items[k])) || (e.Entry? && Clashes(dump, items))
    case VStruct(fs) => exists k :: 0 <= k < |fs| && Throws(dump, fs[k])
    case VEntry(k, w) => Throws(dump, k) || Throws(dump, w)
    case VVariant(w) => Throws(dump, w)
  }

  ghost predicate AnyThrows(dump: Dump, vs: seq<Value>) {
    exists k :: 0 <= k < |vs| && Throws(dump, vs[k])
  }

  /** Exactly when reading a value throws: when such a clash is in it, or when it is a struct itself and what it is read onto
      takes no elements. */
  lemma {:induction false} IntoThrows(dump: Dump, v: Value, target: Json)
    requires Sound(v)
    ensures Into(dump, v, target).None? <==> Throws(dump, v) || (Strip(v).VStruct? && !Appendable(target))
    ensures Into(dump, v, target).Some? ==> (Appendable(Into(dump, v, target).value) <==> !Blocks(v))
    decreases v, 0
  {
    hide IntoAll, IntoMembers, Clashes;
    match v
    case VBasic(_, _) =>
    case VArray(e, items) =>
      if e.Entry? { MembersThrow(dump, items); } else { AllThrow(dump, items); }
    case VStruct(fs) => AllThrow(dump, fs);
    case VVariant(w) => IntoThrows(dump, w, target);
  }

  lemma {:induction false} AllThrow(dump: Dump, vs: seq<Value>)
    requires SoundAll(vs)
    ensures IntoAll(dump, vs).None? <==> AnyThrows(dump, vs)
    decreases vs, 0
  {
    hide Into, Throws, Sound;
    if vs != [] {
      var n := |vs| - 1;
      AllThrow(dump, vs[..n]);
      IntoThrows(dump, vs[n], JNull);
      AnyNext(dump, vs);
    }
  }

  lemma AnyNext(dump: Dump, vs: seq<Value>)
    requires vs != []
    ensures AnyThrows(dump, vs) <==> AnyThrows(dump, vs[..|vs| - 1]) || Throws(dump, vs[|vs| - 1])
  {
    hide Throws;
    var front := vs[..|vs| - 1];
    if AnyThrows(dump, front) {
      var k :| 0 <= k < |front| && Throws(dump, front[k]);
      assert Throws(dump, vs[k]);
    }
    if AnyThrows(dump, vs) && !Throws(dump, vs[|vs| - 1]) {
      var k :| 0 <= k < |vs| && Throws(dump, vs[k]);
      assert Throws(dump, front[k]);
    }
  }

  lemma ClashNext(dump: Dump, items: seq<Value>)
    requires items != []
    ensures Clashes(dump, items) <==> Clashes(dump, items[..|items| - 1]) || ClashAt(dump, items, |items| - 1)
  {
    var n := |items| - 1;
    var front := items[..n];
    assert forall m :: 0 <= m < n ==> front[m] == items[m] && front[..m] == items[..m];
    hide LastOf, EntryKey, Strip, Blocks;
    if Clashes(dump, front) {
      var m :| 0 <= m < n && ClashAt(dump, front, m);
      assert ClashAt(dump, items, m);
    }
    if Clashes(dump, items) && !ClashAt(dump, items, n) {
      var m :| 0 <= m < |items| && ClashAt(dump, items, m);
      assert ClashAt(dump, front, m);
    }
  }

  /** The members after some entries: which keys there are, and which of them take elements. */
  ghost predicate Holds(dump: Dump, items: seq<Value>, members: map<string, Json>) {
    forall key :: (key in members <==> LastOf(dump, items, key).Some?) &&
      (key in members ==> (Appendable(members[key]) <==> !Blocks(LastOf(dump, items, key).value)))
  }

  ghost predicate SoundEntries(items: seq<Value>) {
    forall k :: 0 <= k < |items| ==> items[k].VEntry? && Sound(items[k].key) && Sound(items[k].val)
  }

  lemma {:induction false} MembersThrow(dump: Dump, items: seq<Value>)
    requires SoundEntries(items)
    ensures IntoMembers(dump, items).None? <==> AnyThrows(dump, items) || Clashes(dump, items)
    ensures IntoMembers(dump, items).Some? ==> Holds(dump, items, IntoMembers(dump, items).value)
    decreases items, 0
  {
    if items != [] {
      var n := |items| - 1;
      var front, last := items[..n], items[n];
      MembersThrow(dump, front);
      AnyNext(dump, items);
      ClashNext(dump, items);
      if IntoMembers(dump, front).Some? {
        EntryThrows(dump, items, last, IntoMembers(dump, front).value);
      }
    }
  }

  lemma {:induction false} EntryThrows(dump: Dump, items: seq<Value>, last: Value, members: map<string, Json>)
    requires items != [] && last == items[|items| - 1] && last.VEntry? && Sound(last.key) && Sound(last.val)
    requires Holds(dump, items[..|items| - 1], members)
    ensures IntoEntry(dump, last, members).None? <==> Throws(dump, last) || ClashAt(dump, items, |items| - 1)
    ensures IntoEntry(dump, last, members).Some? ==> Holds(dump, items, IntoEntry(dump, last, members).value)
    decreases last, 1
  {
    IntoThrows(dump, last.key, JNull);
    hide Into, LastOf, Strip, Blocks, Sound;
    var n := |items| - 1;
    var front := items[..n];
    if EntryKey(dump, last).Some? {
      var k := EntryKey(dump, last).value;
      IntoThrows(dump, last.val, Held(members, k));
      forall key
        ensures LastOf(dump, items, key) == if key == k then Some(last.val) else LastOf(dump, front, key)
      {
        LastNext(dump, items, key);
      }
    }
  }

  lemma LastNext(dump: Dump, items: seq<Value>, key: string)
    requires items != [] && items[|items| - 1].VEntry?
    ensures LastOf(dump, items, key) ==
            if EntryKey(dump, items[|items| - 1]) == Some(key) then Some(items[|items| - 1].val)
            else LastOf(dump, items[..|items| - 1], key)
  {
  }

  /** Exactly when a signature is read onto a response: it describes the next values, none of them throws, and the response
      takes elements where some are appended to it. */
  lemma ReadsExactly(dump: Dump, pieces: seq<string>, vs: seq<Value>, target: Json)
    requires SoundAll(vs)
    ensures Reads(dump, pieces, vs, target) <==>
            && Describes(pieces, vs) && !AnyThrows(dump, vs[..|pieces|])
            && (|pieces| >= 2 || (|pieces| == 1 && Strip(vs[0]).VStruct?) ==> Appendable(target))
  {
    hide Into, IntoAll, Throws, Sound, Strip;
    if Describes(pieces, vs) {
      var all := vs[..|pieces|];
      AllThrow(dump, all);
      if |all| == 1 {
        IntoThrows(dump, all[0], target);
        assert AnyThrows(dump, all) <==> Throws(dump, all[0]);
      }
    }
  }

  /** The object of a dictionary, which is made unless something in it throws, has one member per entry if and only if the
      keys are distinct; and then each entry is there under its own key, with its own value. */
  lemma DictKeepsEntries(dump: Dump, items: seq<Value>)
    requires SoundEntries(items)
    ensures IntoMembers(dump, items).Some? <==> !AnyThrows(dump, items) && !Clashes(dump, items)
    ensures IntoMembers(dump, items).Some? ==>
              (|IntoMembers(dump, items).value| == |items| <==> DistinctKeys(dump, items))
    ensures IntoMembers(dump, items).Some? && DistinctKeys(dump, items) ==> forall k :: 0 <= k < |items| ==>
              && EntryKey(dump, items[k]).Some? && EntryKey(dump, items[k]).value in IntoMembers(dump, items).value
              && Into(dump, items[k].val, JNull) == Some(IntoMembers(dump, items).value[EntryKey(dump, items[k]).value])
  {
    hide Into, IntoMembers, EntryKey, DistinctKeys, Clashes, AnyThrows;
    MembersThrow(dump, items);
    if IntoMembers(dump, items).Some? {
      DictCounts(dump, items);
    }
  }

  /** The JSON tree of a value: structs and arrays become arrays, dictionaries objects, variants their content. */
  function ToJson(dump: Dump, v: Value): Json
    decreases v, 0
  {
    match v
    case VBasic(c, p) => ScalarJson(c, p)
    case VArray(e, items) => if e.Entry? then JObj(ToMembers(dump, items)) else JArr(ToJsons(dump, items))
    case VStruct(fs) => JArr(ToJsons(dump, fs))
    case VEntry(_, w) => ToJson(dump, w)
    case VVariant(w) => ToJson(dump, w)
  }

  function ToJsons(dump: Dump, vs: seq<Value>): (r: seq<Json>)
    ensures |r| == |vs|
    decreases vs, 0
  {
    if vs == [] then [] else ToJsons(dump, vs[..|vs| - 1]) + [ToJson(dump, vs[|vs| - 1])]
  }

  function ToMembers(dump: Dump, vs: seq<Value>): map<string, Json>
    decreases vs, 0
  {
    if vs == [] then map[]
    else
      var last, members := vs[|vs| - 1], ToMembers(dump, vs[..|vs| - 1]);
      if last.VEntry? then members[TreeKey(dump, last) := ToJson(dump, last)] else members
  }

  function TreeKey(dump: Dump, e: Value): string
    requires e.VEntry?
    decreases e, 0
  {
    KeyText(dump, ToJson(dump, e.key))
  }

  /** No dictionary in the value repeats a key. */
  ghost predicate Unrepeated(dump: Dump, v: Value)
    decreases v, 0
  {
    match v
    case VBasic(_, _) => true
    case VArray(e, items) =>
      && (forall k :: 0 <= k < |items| ==> Unrepeated(dump, items[k]))
      && (e.Entry? ==> (forall k :: 0 <= k < |items| ==> items[k].VEntry?) && DistinctKeys(dump, items))
    case VStruct(fs) => forall k :: 0 <= k < |fs| ==> Unrepeated(dump, fs[k])
    case VEntry(k, w) => Unrepeated(dump, k) && Unrepeated(dump, w)
    case VVariant(w) => Unrepeated(dump, w)
  }

  /** Where no key is repeated, reading onto a null value never throws and gives the value's tree. */
  lemma {:induction false} IntoIsTree(dump: Dump, v: Value)
    requires Unrepeated(dump, v)
    ensures Into(dump, v, JNull) == Some(ToJson(dump, v))
    decreases v, 0
  {
    hide DistinctKeys;
    match v
    case VBasic(_, _) =>
    case VArray(e, items) => if e.Entry? { MembersAreTree(dump, items); } else { AllAreTrees(dump, items); }
    case VStruct(fs) =>
      AllAreTrees(dump, fs);
      assert ItemsOf(JNull) + ToJsons(dump, fs) == ToJsons(dump, fs);
    case VEntry(_, w) => IntoIsTree(dump, w);
    case VVariant(w) => IntoIsTree(dump, w);
  }

  lemma {:induction false} AllAreTrees(dump: Dump, vs: seq<Value>)
    requires forall k :: 0 <= k < |vs| ==> Unrepeated(dump, vs[k])
    ensures IntoAll(dump, vs) == Some(ToJsons(dump, vs))
    decreases vs, 0
  {
    hide Unrepeated;
    if vs != [] {
      AllAreTrees(dump, vs[..|vs| - 1]);
      IntoIsTree(dump, vs[|vs| - 1]);
    }
  }

  lemma {:induction false} MembersAreTree(dump: Dump, items: seq<Value>)
    requires forall k :: 0 <= k < |items| ==> items[k].VEntry? && Unrepeated(dump, items[k])
    requires DistinctKeys(dump, items)
    ensures IntoMembers(dump, items) == Some(ToMembers(dump, items))
    decreases items, 0
  {
    if items != [] {
      var n := |items| - 1;
      var front, last := items[..n], items[n];
      assert forall k :: 0 <= k < n ==> front[k] == items[k];
      MembersAreTree(dump, front);
      EntryIsTree(dump, last);
      FreshKey(dump, items);
    }
  }

  lemma {:induction false} EntryIsTree(dump: Dump, e: Value)
    requires e.VEntry? && Unrepeated(dump, e)
    ensures Into(dump, e.val, JNull) == Some(ToJson(dump, e)) && EntryKey(dump, e) == Some(TreeKey(dump, e))
    decreases e, 0
  {
    IntoIsTree(dump, e.key);
    IntoIsTree(dump, e.val);
  }

  /** The last of distinct keys is new to the object. */
  lemma FreshKey(dump: Dump, items: seq<Value>)
    requires items != [] && DistinctKeys(dump, items) && IntoMembers(dump, items[..|items| - 1]).Some?
    requires items[|items| - 1].VEntry? && EntryKey(dump, items[|items| - 1]).Some?
    ensures EntryKey(dump, items[|items| - 1]).value !in IntoMembers(dump, items[..|items| - 1]).value
  {
    hide EntryKey, IntoMembers;
    var n := |items| - 1;
    var front := items[..n];
    DictKeys(dump, front);
    assert forall k :: 0 <= k < n ==> front[k] == items[k];
  }

  lemma OneNumber(dump: Dump, n: int)
    ensures IntoAll(dump, [VBasic('i', Number(n))]) == Some([JNum(n)])
  {
    var v := VBasic('i', Number(n));
    assert [v][..0] == [] && IntoAll(dump, []) == Some([]) && Into(dump, v, JNull) == Some(JNum(n));
    assert [] + [JNum(n)] == [JNum(n)];
  }

  lemma TwoEntries(dump: Dump, a: Value, b: Value)
    requires a.VEntry? && b.VEntry? && IntoEntry(dump, a, map[]).Some?
    ensures IntoMembers(dump, [a, b]) == IntoEntry(dump, b, IntoEntry(dump, a, map[]).value)
  {
    hide IntoEntry;
    assert [a, b][..1] == [a] && [a][..0] == [];
    assert IntoMembers(dump, [a]) == IntoEntry(dump, a, map[]);
  }

  lemma EntryUnder(dump: Dump, t: string, val: Value, members: map<string, Json>)
    ensures IntoEntry(dump, VEntry(VBasic('s', Text(t)), val), members) ==
            var j := Into(dump, val, Held(members, t)); if j.None? then None else Some(members[t := j.value])
  {
    assert Into(dump, VBasic('s', Text(t)), JNull) == Some(JStr(t));
  }

  /** Two entries of one key: the second value is read onto the first. */
  lemma RepeatedKey(dump: Dump, t: string, a: Value, b: Value, j: Json)
    requires Into(dump, a, JNull) == Some(j)
    ensures IntoMembers(dump, [VEntry(VBasic('s', Text(t)), a), VEntry(VBasic('s', Text(t)), b)]) ==
            var next := Into(dump, b, j); if next.None? then None else Some(map[t := next.value])
  {
    hide Into, IntoEntry, IntoMembers;
    var none: map<string, Json>, one, next := map[], map[t := j], Into(dump, b, j);
    EntryUnder(dump, t, a, none);
    EntryUnder(dump, t, b, one);
    assert none[t := j] == one;
    assert next.Some? ==> one[t := next.value] == map[t := next.value];
    TwoEntries(dump, VEntry(VBasic('s', Text(t)), a), VEntry(VBasic('s', Text(t)), b));
  }

  function Numbered(n: int): Value {
    VStruct([VBasic('i', Number(n))])
  }

  lemma NumberedInto(dump: Dump, n: int, target: Json)
    ensures Into(dump, Numbered(n), target) == AppendAll(target, Some([JNum(n)]))
  {
    OneNumber(dump, n);
  }

  /** A repeated key: the second struct is appended to the first, and onto a text it throws. */
  lemma RepeatedKeyAppends(dump: Dump, t: string)
    ensures IntoMembers(dump, [VEntry(VBasic('s', Text(t)), Numbered(1)), VEntry(VBasic('s', Text(t)), Numbered(2))]) ==
            Some(map[t := JArr([JNum(1), JNum(2)])])
    ensures
      var text, struct := VVariant(VBasic('s', Text("x"))), VVariant(Numbered(2));
      IntoMembers(dump, [VEntry(VBasic('s', Text(t)), text), VEntry(VBasic('s', Text(t)), struct)]) == None
  {
    hide IntoMembers, IntoAll, Numbered;
    NumberedInto(dump, 1, JNull);
    NumberedInto(dump, 2, JArr([JNum(1)]));
    NumberedInto(dump, 2, JStr("x"));
    assert [] + [JNum(1)] == [JNum(1)] && [JNum(1)] + [JNum(2)] == [JNum(1), JNum(2)];
    RepeatedKey(dump, t, Numbered(1), Numbered(2), JArr([JNum(1)]));
    var text, struct := VVariant(VBasic('s', Text("x"))), VVariant(Numbered(2));
    assert Into(dump, text.inner, JNull) == Some(JStr("x"));
    RepeatedKey(dump, t, text, struct, JStr("x"));
  }

  /** What a basic value is read as, whatever it is read onto: a boolean is true if and only if its number is not zero, every
      other integer keeps its number, a text its characters and a double its bits. */
  lemma ScalarsRead(dump: Dump, code: char, payload: Scalar, target: Json)
    requires code in "sogbynqiuxthd"
    requires payload.Text? <==> code in "sog"
    requires payload.Float? <==> code == 'd'
    ensures Sound(VBasic(code, payload)) && Matches([code], [VBasic(code, payload)])
    ensures Reads(dump, [[code]], [VBasic(code, payload)], target)
    ensures code in "sog" ==> Into(dump, VBasic(code, payload), target) == Some(JStr(payload.s))
    ensures code == 'd' ==> Into(dump, VBasic(code, payload), target) == Some(JFloat(payload.bits))
    ensures code in "ynqiuxth" ==> Into(dump, VBasic(code, payload), target) == Some(JNum(payload.n))
    ensures code == 'b' && payload.n != 0 ==> Into(dump, VBasic(code, payload), target) == Some(JBool(true))
    ensures code == 'b' && payload.n == 0 ==> Into(dump, VBasic(code, payload), target) == Some(JBool(false))
  {
  }

  /** A dictionary key is its own text when it is one, and otherwise its JSON text. */
  lemma KeysRead(dump: Dump, code: char, payload: Scalar, val: Value)
    requires code in "sogbynqiuxthd"
    requires payload.Text? <==> code in "sog"
    requires payload.Float? <==> code == 'd'
    ensures code in "sog" ==> EntryKey(dump, VEntry(VBasic(code, payload), val)) == Some(payload.s)
    ensures code in "ynqiuxth" ==> EntryKey(dump, VEntry(VBasic(code, payload), val)) == Some(dump(JNum(payload.n)))
    ensures code == 'b' ==> EntryKey(dump, VEntry(VBasic(code, payload), val)) == Some(dump(JBool(payload.n != 0)))
    ensures code == 'd' ==> EntryKey(dump, VEntry(VBasic(code, payload), val)) == Some(dump(JFloat(payload.bits)))
  {
    ScalarsRead(dump, code, payload, JNull);
  }
}
