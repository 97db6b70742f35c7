/** Which messages of a schema the generated stubs need: everything reachable from the RPCs. */
module Reachability {
  import opened Wire

  datatype Type =
    | Scalar
    | Enum
    | ForeignKey
    | Message(name: string, package: Option<string>)
    | Vector(inner: Type)
    | Optional(inner: Type)
    | Map(key: Type, value: Type)
    | OneOf(variants: seq<Type>)

  datatype MessageDef = MessageDef(name: string, namespace: Option<string>, fields: seq<Type>)

  datatype MethodDef = MethodDef(input: string, output: string)

  /** The methods of all services, in order. */
  datatype Schema = Schema(messages: seq<MessageDef>, methods: seq<MethodDef>)

  // ---- Names -------------------------------------------------------------------------------------

  function QualifiedName(namespace: Option<string>, name: string): string {
    if namespace.None? || namespace.value == "" then name else namespace.value + "." + name
  }

  /** Index of the last dot; the length of the text if there is none. */
  function LastDot(id: string): (i: nat)
    ensures i <= |id|
    ensures i < |id| ==> id[i] == '.' && '.' !in id[i + 1..]
    ensures i == |id| ==> '.' !in id
  {
    if id == "" then 0
    else if id[|id| - 1] == '.' then |id| - 1
    else
      var shorter := id[..|id| - 1];
      var i := LastDot(shorter);
      assert id == shorter + [id[|id| - 1]];
      assert i < |shorter| ==> id[i + 1..] == shorter[i + 1..] + [id[|id| - 1]];
      if i == |shorter| then |id| else i
  }

  function SplitQualified(id: string): (Option<string>, string) {
    var i := LastDot(id);
    if i == |id| then (None, id) else (Some(id[..i]), id[i + 1..])
  }

  /** The namespace as `SplitQualified` gives it back: an empty one is none. */
  function Normal(namespace: Option<string>): Option<string> {
    if namespace == Some("") then None else namespace
  }

  lemma {:induction false} LastDotBefore(prefix: string, name: string)
    requires '.' !in name
    ensures LastDot(prefix + "." + name) == |prefix|
  {
    var id := prefix + "." + name;
    if name == "" {
      assert id[|id| - 1] == '.';
    } else {
      var shorter := name[..|name| - 1];
      LastDotBefore(prefix, shorter);
      assert id[..|id| - 1] == prefix + "." + shorter;
      assert id[|id| - 1] == name[|name| - 1] && name[|name| - 1] in name;
    }
  }

  lemma {:induction false} NoDot(name: string)
    requires '.' !in name
    ensures LastDot(name) == |name|
  {
    if name != "" {
      assert name[|name| - 1] in name;
      NoDot(name[..|name| - 1]);
    }
  }

  /** Splitting undoes qualifying exactly for names without a dot. */
  lemma SplitUndoesQualify(namespace: Option<string>, name: string)
    ensures SplitQualified(QualifiedName(namespace, name)) == (Normal(namespace), name) <==> '.' !in name
  {
    var id := QualifiedName(namespace, name);
    var i := LastDot(id);
    if '.' !in name {
      if Normal(namespace).Some? {
        LastDotBefore(namespace.value, name);
        assert id[..|namespace.value|] == namespace.value && id[|namespace.value| + 1..] == name;
      } else {
        NoDot(name);
      }
    }
  }

  // ---- Lookup ------------------------------------------------------------------------------------

  predicate Matches(m: MessageDef, namespace: Option<string>, name: string) {
    m.name == name && (namespace.None? || namespace.value == "" || m.namespace == namespace)
  }

  function FindFrom(messages: seq<MessageDef>, namespace: Option<string>, name: string): (r: Option<MessageDef>)
    ensures r.Some? ==> r.value in messages && Matches(r.value, namespace, name)
    ensures r.None? ==> forall m :: m in messages ==> !Matches(m, namespace, name)
  {
    if messages == [] then None
    else if Matches(messages[0], namespace, name) then Some(messages[0])
    else FindFrom(messages[1..], namespace, name)
  }

  function FindMessage(schema: Schema, namespace: Option<string>, name: string): (r: Option<MessageDef>)
    ensures r.Some? ==> r.value in schema.messages && Matches(r.value, namespace, name)
    ensures r.None? ==> forall m :: m in schema.messages ==> !Matches(m, namespace, name)
  {
    FindFrom(schema.messages, namespace, name)
  }

  /** The message found is the first in the schema that the lookup matches. */
  lemma {:induction false} FindIsFirst(messages: seq<MessageDef>, namespace: Option<string>, name: string)
    ensures var found := FindFrom(messages, namespace, name);
            found.Some? ==>
              exists i :: 0 <= i < |messages| && messages[i] == found.value
                          && forall j :: 0 <= j < i ==> !Matches(messages[j], namespace, name)
  {
    if messages != [] && !Matches(messages[0], namespace, name) && FindFrom(messages[1..], namespace, name).Some? {
      FindIsFirst(messages[1..], namespace, name);
      var i :| 0 <= i < |messages[1..]| && messages[1..][i] == FindFrom(messages[1..], namespace, name).value
               && forall j :: 0 <= j < i ==> !Matches(messages[1..][j], namespace, name);
      assert messages[i + 1] == FindFrom(messages, namespace, name).value;
      forall j | 0 <= j < i + 1
        ensures !Matches(messages[j], namespace, name)
      {
        assert j > 0 ==> messages[j] == messages[1..][j - 1];
      }
    }
  }

  function IdOf(m: MessageDef): string {
    QualifiedName(m.namespace, m.name)
  }

  /** The message an identifier stands for when the worklist takes it up. */
  function Resolve(schema: Schema, id: string): Option<MessageDef> {
    var (namespace, name) := SplitQualified(id);
    FindMessage(schema, namespace, name)
  }

  function IdsOf(schema: Schema): set<string> {
    set m | m in schema.messages :: IdOf(m)
  }

  /** What follows the last `::` of a type path. */
  function BareName(raw: string): string {
    if |raw| >= 2 && raw[|raw| - 2..] == "::" then ""
    else if raw == "" then ""
    else BareName(raw[..|raw| - 1]) + [raw[|raw| - 1]]
  }

  lemma {:induction false} BareNameStays(name: string)
    requires ':' !in name
    ensures BareName(name) == name
  {
    if name != "" {
      var n := |name| - 1;
      assert name[n] in name && name == name[..n] + [name[n]];
      BareNameStays(name[..n]);
    }
  }

  /** Of a type path only what follows the last `::` counts. */
  lemma {:induction false} BareNameIsLast(path: string, name: string)
    requires ':' !in name && |path| >= 2 && path[|path| - 2..] == "::"
    ensures BareName(path + name) == name
    decreases |name|
  {
    var raw := path + name;
    if name == "" {
      assert raw == path;
    } else {
      var n := |name| - 1;
      assert name[n] in name && name == name[..n] + [name[n]];
      assert raw[|raw| - 1] == name[n] && raw[..|raw| - 1] == path + name[..n];
      assert raw[|raw| - 2..][1] != ':';
      BareNameIsLast(path, name[..n]);
    }
  }

  function QualifyMessage(schema: Schema, raw: string): Option<string> {
    match FindMessage(schema, None, BareName(raw))
    case None => None
    case Some(m) => Some(IdOf(m))
  }

  // ---- References --------------------------------------------------------------------------------

  /** The messages a type refers to, through vectors, options, maps and unions. */
  function References(schema: Schema, ty: Type): set<string> {
    match ty
    case Scalar => {}
    case Enum => {}
    case ForeignKey => {}
    case Message(name, package) =>
      (match FindMessage(schema, package, name)
       case Some(m) => {IdOf(m)}
       case None => {})
    case Vector(inner) => References(schema, inner)
    case Optional(inner) => References(schema, inner)
    case Map(key, value) => References(schema, key) + References(schema, value)
    case OneOf(variants) => AllReferences(schema, variants)
  }

  function AllReferences(schema: Schema, types: seq<Type>): set<string> {
    if types == [] then {} else References(schema, types[0]) + AllReferences(schema, types[1..])
  }

  /** What taking up an identifier leads to. */
  function Next(schema: Schema, id: string): set<string> {
    match Resolve(schema, id)
    case Some(m) => AllReferences(schema, m.fields)
    case None => {}
  }

  function MethodIds(schema: Schema, rpc: MethodDef): set<string> {
    (match QualifyMessage(schema, rpc.input) case Some(id) => {id} case None => {})
    + (match QualifyMessage(schema, rpc.output) case Some(id) => {id} case None => {})
  }

  function IoIds(schema: Schema, methods: seq<MethodDef>): set<string> {
    if methods == [] then {} else IoIds(schema, methods[..|methods| - 1]) + MethodIds(schema, methods[|methods| - 1])
  }

  ghost predicate Closed(schema: Schema, s: set<string>) {
    forall id :: id in s ==> Next(schema, id) <= s
  }

  /** The least set that holds the RPC inputs and outputs and everything their fields lead to. */
  ghost predicate IsReachableSet(schema: Schema, s: set<string>) {
    && IoIds(schema, schema.methods) <= s && Closed(schema, s)
    && forall t: set<string> :: IoIds(schema, schema.methods) <= t && Closed(schema, t) ==> s <= t
  }

  // ---- References by where they stand ----------------------------------------------------------------

  /** A step from a type to one it is made of. */
  datatype Into = Element | Key | Entry | Variant(index: nat)

  /** The type that a path of steps leads to. */
  function At(ty: Type, path: seq<Into>): Option<Type>
    decreases path
  {
    if path == [] then Some(ty)
    else if (ty.Vector? || ty.Optional?) && path[0] == Element then At(ty.inner, path[1..])
    else if ty.Map? && path[0] == Key then At(ty.key, path[1..])
    else if ty.Map? && path[0] == Entry then At(ty.value, path[1..])
    else if ty.OneOf? && path[0].Variant? && path[0].index < |ty.variants| then
      At(ty.variants[path[0].index], path[1..])
    else None
  }

  /** Somewhere inside the type stands a name that is found as the message `id`. */
  ghost predicate RefersTo(schema: Schema, ty: Type, id: string) {
    exists path, name, package :: IsNamedAt(schema, ty, path, name, package, id)
  }

  predicate IsNamedAt(
    schema: Schema, ty: Type, path: seq<Into>, name: string, package: Option<string>, id: string)
  {
    && At(ty, path) == Some(Message(name, package))
    && FindMessage(schema, package, name).Some? && IdOf(FindMessage(schema, package, name).value) == id
  }

  lemma StepIn(schema: Schema, ty: Type, step: Into, inner: Type, id: string)
    requires At(ty, [step]) == Some(inner) && RefersTo(schema, inner, id)
    ensures RefersTo(schema, ty, id)
  {
    var path, name, package :| IsNamedAt(schema, inner, path, name, package, id);
    assert ([step] + path)[1..] == path && [step][1..] == [];
    assert IsNamedAt(schema, ty, [step] + path, name, package, id);
  }

  lemma {:induction false} ReferencesAreNamed(schema: Schema, ty: Type, id: string)
    requires id in References(schema, ty)
    ensures RefersTo(schema, ty, id)
    decreases ty, 0
  {
    match ty
    case Message(name, package) => assert IsNamedAt(schema, ty, [], name, package, id);
    case Vector(inner) =>
      ReferencesAreNamed(schema, inner, id);
      StepIn(schema, ty, Element, inner, id);
    case Optional(inner) =>
      ReferencesAreNamed(schema, inner, id);
      StepIn(schema, ty, Element, inner, id);
    case Map(key, value) =>
      if id in References(schema, key) {
        ReferencesAreNamed(schema, key, id);
        StepIn(schema, ty, Key, key, id);
      } else {
        ReferencesAreNamed(schema, value, id);
        StepIn(schema, ty, Entry, value, id);
      }
    case OneOf(variants) =>
      var i := OneOfAllReferences(schema, variants, id);
      StepIn(schema, ty, Variant(i), variants[i], id);
  }

  lemma {:induction false} OneOfAllReferences(schema: Schema, types: seq<Type>, id: string) returns (i: nat)
    requires id in AllReferences(schema, types)
    ensures i < |types| && RefersTo(schema, types[i], id)
    decreases types
  {
    if id in References(schema, types[0]) {
      ReferencesAreNamed(schema, types[0], id);
      i := 0;
    } else {
      i := OneOfAllReferences(schema, types[1..], id);
      i := i + 1;
    }
  }

  lemma {:induction false} NamedAreReferences(
    schema: Schema, ty: Type, path: seq<Into>, name: string, package: Option<string>, id: string)
    requires IsNamedAt(schema, ty, path, name, package, id)
    ensures id in References(schema, ty)
    decreases path
  {
    if path != [] {
      match ty
      case Vector(inner) => NamedAreReferences(schema, inner, path[1..], name, package, id);
      case Optional(inner) => NamedAreReferences(schema, inner, path[1..], name, package, id);
      case Map(key, value) =>
        NamedAreReferences(schema, if path[0] == Key then key else value, path[1..], name, package, id);
      case OneOf(variants) =>
        NamedAreReferences(schema, variants[path[0].index], path[1..], name, package, id);
        AllReferencesHas(schema, variants, path[0].index);
      case _ =>
    }
  }

  lemma {:induction false} AllReferencesHas(schema: Schema, types: seq<Type>, i: nat)
    requires i < |types|
    ensures References(schema, types[i]) <= AllReferences(schema, types)
  {
    if i > 0 {
      AllReferencesHas(schema, types[1..], i - 1);
    }
  }

  /** What a type refers to is exactly what the names anywhere inside it are found as. */
  lemma ReferencesAreExact(schema: Schema, ty: Type, id: string)
    ensures id in References(schema, ty) <==> RefersTo(schema, ty, id)
  {
    if id in References(schema, ty) {
      ReferencesAreNamed(schema, ty, id);
    }
    if RefersTo(schema, ty, id) {
      var path, name, package :| IsNamedAt(schema, ty, path, name, package, id);
      NamedAreReferences(schema, ty, path, name, package, id);
    }
  }

  ghost predicate AnyRefersTo(schema: Schema, types: seq<Type>, id: string) {
    exists i :: 0 <= i < |types| && RefersTo(schema, types[i], id)
  }

  lemma AllReferencesAreExact(schema: Schema, types: seq<Type>, id: string)
    ensures id in AllReferences(schema, types) <==> AnyRefersTo(schema, types, id)
  {
    if id in AllReferences(schema, types) {
      var i := OneOfAllReferences(schema, types, id);
    }
    if AnyRefersTo(schema, types, id) {
      var i :| 0 <= i < |types| && RefersTo(schema, types[i], id);
      ReferencesAreExact(schema, types[i], id);
      AllReferencesHas(schema, types, i);
    }
  }

  // ---- The least set by its meaning --------------------------------------------------------------------

  /** Some RPC takes or returns the message. */
  ghost predicate IsRpcMessage(schema: Schema, id: string) {
    exists rpc :: rpc in schema.methods && Handles(schema, rpc, id)
  }

  predicate Handles(schema: Schema, rpc: MethodDef, id: string) {
    QualifyMessage(schema, rpc.input) == Some(id) || QualifyMessage(schema, rpc.output) == Some(id)
  }

  /** A field of the message behind `id` refers to `next`. */
  ghost predicate LeadsTo(schema: Schema, id: string, next: string) {
    Resolve(schema, id).Some? && AnyRefersTo(schema, Resolve(schema, id).value.fields, next)
  }

  ghost predicate HoldsAll(schema: Schema, s: set<string>) {
    && (forall id :: IsRpcMessage(schema, id) ==> id in s)
    && forall id, next :: id in s && LeadsTo(schema, id, next) ==> next in s
  }

  /** The least set with the messages of all RPCs and, for each message in it, those its fields refer to. */
  ghost predicate IsLeastSet(schema: Schema, s: set<string>) {
    HoldsAll(schema, s) && forall t: set<string> :: HoldsAll(schema, t) ==> s <= t
  }

  lemma {:induction false} IoIdsAreExact(schema: Schema, methods: seq<MethodDef>, id: string)
    ensures id in IoIds(schema, methods) <==> exists rpc :: rpc in methods && Handles(schema, rpc, id)
  {
    if methods != [] {
      var last := |methods| - 1;
      IoIdsAreExact(schema, methods[..last], id);
      assert methods == methods[..last] + [methods[last]];
      assert forall rpc :: rpc in methods <==> rpc in methods[..last] || rpc == methods[last];
      assert id in MethodIds(schema, methods[last]) <==> Handles(schema, methods[last], id);
    }
  }

  lemma ClosedIsHolding(schema: Schema, t: set<string>)
    ensures HoldsAll(schema, t) <==> IoIds(schema, schema.methods) <= t && Closed(schema, t)
  {
    forall id
      ensures id in IoIds(schema, schema.methods) <==> IsRpcMessage(schema, id)
    {
      IoIdsAreExact(schema, schema.methods, id);
    }
    forall id, next
      ensures next in Next(schema, id) <==> LeadsTo(schema, id, next)
    {
      if Resolve(schema, id).Some? {
        AllReferencesAreExact(schema, Resolve(schema, id).value.fields, next);
      }
    }
  }

  lemma ReachableIsLeast(schema: Schema, s: set<string>)
    ensures IsReachableSet(schema, s) <==> IsLeastSet(schema, s)
  {
    ClosedIsHolding(schema, s);
    forall t: set<string>
      ensures HoldsAll(schema, t) <==> IoIds(schema, schema.methods) <= t && Closed(schema, t)
    {
      ClosedIsHolding(schema, t);
    }
  }

  // ---- The collectors ------------------------------------------------------------------------------

  function Elements(ids: seq<string>): set<string> {
    set id | id in ids
  }

  lemma ElementsAppend(ids: seq<string>, id: string)
    ensures Elements(ids + [id]) == Elements(ids) + {id}
  {
  }

  lemma ElementsPop(ids: seq<string>)
    requires ids != []
    ensures Elements(ids) == Elements(ids[..|ids| - 1]) + {ids[|ids| - 1]}
  {
    ElementsAppend(ids[..|ids| - 1], ids[|ids| - 1]);
    assert ids[..|ids| - 1] + [ids[|ids| - 1]] == ids;
  }

  lemma ReferencesAreAdded(schema: Schema, ty: Type, frontier: seq<string>, out: seq<string>)
    requires Elements(out) == Elements(frontier) + References(schema, ty)
    ensures forall id :: id in out <==> id in frontier || RefersTo(schema, ty, id)
  {
    forall id
      ensures id in out <==> id in frontier || RefersTo(schema, ty, id)
    {
      ReferencesAreExact(schema, ty, id);
      assert id in out <==> id in Elements(out);
      assert id in frontier <==> id in Elements(frontier);
    }
  }

  method CollectReferenced(schema: Schema, ty: Type, frontier: seq<string>) returns (out: seq<string>)
    ensures Elements(out) == Elements(frontier) + References(schema, ty)
    ensures forall id :: id in out <==> id in frontier || RefersTo(schema, ty, id)
    decreases ty, 0
  {
    out := frontier;
    match ty {
      case Scalar =>
      case Enum =>
      case ForeignKey =>
      case Message(name, package) =>
        var found := FindMessage(schema, package, name);
        if found.Some? {
          ElementsAppend(out, IdOf(found.value));
          out := out + [IdOf(found.value)];
        }
      case Vector(inner) => out := CollectReferenced(schema, inner, out);
      case Optional(inner) => out := CollectReferenced(schema, inner, out);
      case Map(key, value) =>
        out := CollectReferenced(schema, key, out);
        out := CollectReferenced(schema, value, out);
      case OneOf(variants) => out := CollectAll(schema, variants, out);
    }
    ReferencesAreAdded(schema, ty, frontier, out);
  }

  method CollectAll(schema: Schema, types: seq<Type>, frontier: seq<string>) returns (out: seq<string>)
    ensures Elements(out) == Elements(frontier) + AllReferences(schema, types)
    decreases types
  {
    out := frontier;
    for i := 0 to |types|
      invariant Elements(out) + AllReferences(schema, types[i..]) == Elements(frontier) + AllReferences(schema, types)
    {
      out := CollectReferenced(schema, types[i], out);
      assert types[i..][1..] == types[i + 1..];
    }
  }

  method CollectRpcIo(schema: Schema) returns (out: set<string>)
    ensures out == IoIds(schema, schema.methods)
    ensures forall id :: id in out <==> IsRpcMessage(schema, id)
  {
    out := {};
    for i := 0 to |schema.methods|
      invariant out == IoIds(schema, schema.methods[..i])
    {
      var rpc := schema.methods[i];
      var input, output := QualifyMessage(schema, rpc.input), QualifyMessage(schema, rpc.output);
      IoIdsStep(schema, schema.methods, i);
      if input.Some? {
        out := out + {input.value};
      }
      if output.Some? {
        out := out + {output.value};
      }
    }
    assert schema.methods[..|schema.methods|] == schema.methods;
    forall id
      ensures id in out <==> IsRpcMessage(schema, id)
    {
      IoIdsAreExact(schema, schema.methods, id);
    }
  }

  lemma IoIdsStep(schema: Schema, methods: seq<MethodDef>, i: nat)
    requires i < |methods|
    ensures IoIds(schema, methods[..i + 1]) == IoIds(schema, methods[..i]) + MethodIds(schema, methods[i])
  {
    assert methods[..i + 1][..i] == methods[..i];
  }

  method Listed(ids: set<string>) returns (list: seq<string>)
    ensures Elements(list) == ids
  {
    list := [];
    var rest := ids;
    while rest != {}
      invariant rest <= ids && Elements(list) == ids - rest
    {
      var id :| id in rest;
      rest := rest - {id};
      ElementsAppend(list, id);
      list := list + [id];
    }
  }

  lemma {:induction false} ReferencesAreIds(schema: Schema, ty: Type)
    ensures References(schema, ty) <= IdsOf(schema)
    decreases ty, 0
  {
    match ty
    case Vector(inner) => ReferencesAreIds(schema, inner);
    case Optional(inner) => ReferencesAreIds(schema, inner);
    case Map(key, value) =>
      ReferencesAreIds(schema, key);
      ReferencesAreIds(schema, value);
    case OneOf(variants) => AllReferencesAreIds(schema, variants);
    case _ =>
  }

  lemma {:induction false} AllReferencesAreIds(schema: Schema, types: seq<Type>)
    ensures AllReferences(schema, types) <= IdsOf(schema)
    decreases types
  {
    if types != [] {
      ReferencesAreIds(schema, types[0]);
      AllReferencesAreIds(schema, types[1..]);
    }
  }

  lemma {:induction false} IoIdsAreIds(schema: Schema, methods: seq<MethodDef>)
    ensures IoIds(schema, methods) <= IdsOf(schema)
  {
    if methods != [] {
      IoIdsAreIds(schema, methods[..|methods| - 1]);
    }
  }

  /** Puts what an identifier leads to on the worklist. */
  method Follow(schema: Schema, id: string, frontier: seq<string>) returns (next: seq<string>)
    ensures Elements(next) == Elements(frontier) + Next(schema, id)
  {
    next := frontier;
    var found := Resolve(schema, id);
    if found.Some? {
      next := CollectAll(schema, found.value.fields, frontier);
    }
  }

  /** All identifiers seen so far have to be there, and those that are out have been followed. */
  ghost predicate Spans(schema: Schema, out: set<string>, seen: set<string>) {
    && out <= seen <= IdsOf(schema)
    && IoIds(schema, schema.methods) <= seen
    && (forall id :: id in out ==> Next(schema, id) <= seen)
    && forall t: set<string> :: IoIds(schema, schema.methods) <= t && Closed(schema, t) ==> seen <= t
  }

  ghost predicate Underway(schema: Schema, out: set<string>, pending: set<string>) {
    Spans(schema, out, out + pending)
  }

  lemma Starts(schema: Schema)
    ensures Underway(schema, {}, IoIds(schema, schema.methods))
  {
    IoIdsAreIds(schema, schema.methods);
    assert {} + IoIds(schema, schema.methods) == IoIds(schema, schema.methods);
  }

  lemma SpansMore(schema: Schema, out: set<string>, seen: set<string>, id: string)
    requires Spans(schema, out, seen) && id in seen
    ensures Spans(schema, out + {id}, seen + Next(schema, id))
  {
    if Resolve(schema, id).Some? {
      AllReferencesAreIds(schema, Resolve(schema, id).value.fields);
    }
  }

  lemma Advances(schema: Schema, out: set<string>, id: string, rest: set<string>)
    requires Underway(schema, out, rest + {id})
    ensures id in out ==> Underway(schema, out, rest)
    ensures Underway(schema, out + {id}, rest + Next(schema, id))
  {
    var seen := out + (rest + {id});
    SpansMore(schema, out, seen, id);
    assert (out + {id}) + (rest + Next(schema, id)) == seen + Next(schema, id);
    if id in out {
      assert out + rest == seen;
    }
  }

  lemma Arrives(schema: Schema, out: set<string>)
    requires Underway(schema, out, {})
    ensures IsReachableSet(schema, out) && out <= IdsOf(schema)
  {
    assert out + {} == out;
  }

  /** Terminates on cyclic schemas too: each round takes up a new message or shortens the frontier. */
  method CollectRpcRelevantMessages(schema: Schema) returns (out: set<string>)
    ensures IsReachableSet(schema, out) && IsLeastSet(schema, out)
    ensures out <= IdsOf(schema)
  {
    out := {};
    var io := CollectRpcIo(schema);
    var frontier := Listed(io);
    Starts(schema);
    while frontier != []
      invariant Underway(schema, out, Elements(frontier))
      decreases IdsOf(schema) - out, |frontier|
    {
      var id := frontier[|frontier| - 1];
      ElementsPop(frontier);
      frontier := frontier[..|frontier| - 1];
      Advances(schema, out, id, Elements(frontier));
      if id !in out {
        assert id in IdsOf(schema);
        out := out + {id};
        frontier := Follow(schema, id, frontier);
      }
    }
    assert Elements([]) == {};
    Arrives(schema, out);
    ReachableIsLeast(schema, out);
  }

  // ---- Where identifiers lead ------------------------------------------------------------------------

  /**
   * With a name free of dots a message of the schema is found again under its identifier, so that branch
   * never gives up. It is found as itself unless it lives in the root namespace behind a message of the
   * same name that does not.
   */
  lemma Resolves(schema: Schema, m: MessageDef)
    requires m in schema.messages && '.' !in m.name
    ensures Resolve(schema, IdOf(m)).Some?
    ensures FindMessage(schema, None, m.name).Some?
    ensures IdOf(Resolve(schema, IdOf(m)).value) == IdOf(m)
       <==> Normal(m.namespace).Some? || Normal(FindMessage(schema, None, m.name).value.namespace).None?
  {
    SplitUndoesQualify(m.namespace, m.name);
    assert Matches(m, Normal(m.namespace), m.name) && Matches(m, None, m.name);
  }

  predicate PlainNames(schema: Schema) {
    forall m :: m in schema.messages ==> '.' !in m.name
  }

  /** The identifier leads back to a message with that identifier. */
  predicate IsSelf(schema: Schema, id: string) {
    Resolve(schema, id).Some? && IdOf(Resolve(schema, id).value) == id
  }

  lemma {:induction false} EmptyIsAny(messages: seq<MessageDef>, name: string)
    ensures FindFrom(messages, Some(""), name) == FindFrom(messages, None, name)
  {
    if messages != [] {
      EmptyIsAny(messages[1..], name);
    }
  }

  /** Whatever a lookup finds, its identifier leads back to it. */
  lemma FoundIsSelf(schema: Schema, namespace: Option<string>, name: string)
    requires PlainNames(schema) && FindMessage(schema, namespace, name).Some?
    ensures IsSelf(schema, IdOf(FindMessage(schema, namespace, name).value))
  {
    Resolves(schema, FindMessage(schema, namespace, name).value);
    EmptyIsAny(schema.messages, name);
  }

  lemma {:induction false} ReferencesAreSelf(schema: Schema, ty: Type)
    requires PlainNames(schema)
    ensures forall id :: id in References(schema, ty) ==> IsSelf(schema, id)
    decreases ty, 0
  {
    match ty
    case Message(name, package) =>
      if FindMessage(schema, package, name).Some? {
        FoundIsSelf(schema, package, name);
      }
    case Vector(inner) => ReferencesAreSelf(schema, inner);
    case Optional(inner) => ReferencesAreSelf(schema, inner);
    case Map(key, value) =>
      ReferencesAreSelf(schema, key);
      ReferencesAreSelf(schema, value);
    case OneOf(variants) => AllReferencesAreSelf(schema, variants);
    case _ =>
  }

  lemma {:induction false} AllReferencesAreSelf(schema: Schema, types: seq<Type>)
    requires PlainNames(schema)
    ensures forall id :: id in AllReferences(schema, types) ==> IsSelf(schema, id)
    decreases types
  {
    if types != [] {
      ReferencesAreSelf(schema, types[0]);
      AllReferencesAreSelf(schema, types[1..]);
    }
  }

  lemma {:induction false} IoIdsAreSelf(schema: Schema, methods: seq<MethodDef>)
    requires PlainNames(schema)
    ensures forall id :: id in IoIds(schema, methods) ==> IsSelf(schema, id)
  {
    if methods != [] {
      var last := methods[|methods| - 1];
      IoIdsAreSelf(schema, methods[..|methods| - 1]);
      forall raw | raw in [last.input, last.output] && QualifyMessage(schema, raw).Some?
        ensures IsSelf(schema, QualifyMessage(schema, raw).value)
      {
        FoundIsSelf(schema, None, BareName(raw));
      }
    }
  }

  /** Every identifier the worklist takes up leads to the message it was made from, never to none or another. */
  lemma CollectedAreSelf(schema: Schema, collected: set<string>)
    requires PlainNames(schema) && IsReachableSet(schema, collected)
    ensures forall id :: id in collected ==> IsSelf(schema, id)
  {
    var selves := set id | id in collected && IsSelf(schema, id);
    IoIdsAreSelf(schema, schema.methods);
    forall id | id in selves
      ensures Next(schema, id) <= selves
    {
      AllReferencesAreSelf(schema, Resolve(schema, id).value.fields);
    }
    assert Closed(schema, selves);
  }

  /** A message of the root namespace behind a namesake is never collected, so neither is what only it refers to. */
  lemma ShadowedIsMissed(schema: Schema, m: MessageDef, collected: set<string>)
    requires PlainNames(schema) && IsReachableSet(schema, collected)
    requires m in schema.messages && Normal(m.namespace).None?
    requires Normal(FindMessage(schema, None, m.name).value.namespace).Some?
    ensures IdOf(m) !in collected
  {
    CollectedAreSelf(schema, collected);
    Resolves(schema, m);
  }

  const NAMESAKE := MessageDef("A", Some("x"), [])

  /** An RPC on `A` of the root namespace, which has a field of type `B` and comes behind `x.A`. */
  const SHADOWED :=
    Schema([NAMESAKE, MessageDef("A", None, [Message("B", None)]), MessageDef("B", None, [])], [MethodDef("A", "A")])

  lemma ShadowedIo()
    ensures IoIds(SHADOWED, SHADOWED.methods) == {"x.A"}
  {
    assert BareName("A") == "A" by {
      assert "A"[..0] == "" && [] + ['A'] == "A";
    }
    assert QualifyMessage(SHADOWED, "A") == Some("x.A") by {
      assert FindMessage(SHADOWED, None, "A") == Some(NAMESAKE);
      assert "x" + "." + "A" == "x.A";
    }
    assert SHADOWED.methods[..0] == [];
  }

  lemma NamesakeIsFound()
    ensures Next(SHADOWED, "x.A") == {}
  {
    SplitUndoesQualify(Some("x"), "A");
    assert QualifiedName(Some("x"), "A") == "x.A" && '.' !in "A";
    assert Resolve(SHADOWED, "x.A") == Some(NAMESAKE);
  }

  /** The stubs get `x.A`, but neither the `A` that was meant nor the `B` in its field. */
  lemma ShadowedRoot(collected: set<string>)
    requires IsReachableSet(SHADOWED, collected)
    ensures collected == {"x.A"}
  {
    ShadowedIo();
    NamesakeIsFound();
    assert Closed(SHADOWED, {"x.A"});
  }

  // ---- Every kind of reference is followed ---------------------------------------------------------------

  /** An RPC on `A`, whose one field has the type, next to a `B` without fields. */
  function SchemaOf(ty: Type): Schema {
    Schema([MessageDef("A", None, [ty]), MessageDef("B", None, [])], [MethodDef("A", "A")])
  }

  lemma FoundInSchema(ty: Type)
    ensures var schema := SchemaOf(ty);
            && FindMessage(schema, None, "A") == Some(schema.messages[0])
            && FindMessage(schema, None, "B") == Some(schema.messages[1])
            && Resolve(schema, "A") == Some(schema.messages[0])
            && Resolve(schema, "B") == Some(schema.messages[1])
  {
    NoDot("A");
    NoDot("B");
    var messages := SchemaOf(ty).messages;
    assert "A"[0] != "B"[0] && messages[1..] == [messages[1]];
    assert FindFrom(messages, None, "B") == FindFrom([messages[1]], None, "B") == Some(messages[1]);
  }

  lemma IoOfSchema(ty: Type)
    ensures IoIds(SchemaOf(ty), SchemaOf(ty).methods) == {"A"}
  {
    var schema, rpc := SchemaOf(ty), MethodDef("A", "A");
    RpcOfSchema(ty);
    assert [rpc][..0] == [] && IoIds(schema, []) == {};
    assert IoIds(schema, [rpc]) == {} + MethodIds(schema, rpc);
  }

  lemma RpcOfSchema(ty: Type)
    ensures MethodIds(SchemaOf(ty), MethodDef("A", "A")) == {"A"}
  {
    BareNameStays("A");
    RpcIsFound(ty);
  }

  lemma RpcIsFound(ty: Type)
    requires BareName("A") == "A"
    ensures QualifyMessage(SchemaOf(ty), "A") == Some("A")
  {
    FoundInSchema(ty);
    assert IdOf(MessageDef("A", None, [ty])) == "A";
  }

  lemma FieldIsFollowed(ty: Type, collected: set<string>)
    requires References(SchemaOf(ty), ty) == {"B"} && IsReachableSet(SchemaOf(ty), collected)
    ensures collected == {"A", "B"}
  {
    FoundInSchema(ty);
    IoOfSchema(ty);
    assert [ty][1..] == [];
    assert Next(SchemaOf(ty), "A") == {"B"} && Next(SchemaOf(ty), "B") == {};
    assert "A" in collected;
    assert Closed(SchemaOf(ty), {"A", "B"});
  }

  /** A message that stands only inside a vector, an option, a map, either side, or a union is collected. */
  lemma EveryKindIsFollowed(ty: Type, collected: set<string>)
    requires
      var b := Message("B", None);
      ty == Vector(b) || ty == Optional(b) || ty == Map(b, Scalar) || ty == Map(Scalar, b) || ty == OneOf([Scalar, b])
    requires IsLeastSet(SchemaOf(ty), collected)
    ensures collected == {"A", "B"}
  {
    var b := Message("B", None);
    FoundInSchema(ty);
    assert References(SchemaOf(ty), b) == {"B"};
    if ty == OneOf([Scalar, b]) {
      assert [Scalar, b][1..] == [b] && [b][1..] == [];
      assert AllReferences(SchemaOf(ty), [b]) == {"B"};
    }
    assert References(SchemaOf(ty), ty) == {"B"};
    ReachableIsLeast(SchemaOf(ty), collected);
    FieldIsFollowed(ty, collected);
  }
}
