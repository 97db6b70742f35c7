/**
  * Server reflection: an index from symbol names to the descriptor of the file that declares them,
  * filled file by file while walking the tree of nested messages.
  */
module Reflection {
  import opened Wire
  import opened Status

  /** A message type; names are optional in a descriptor, and an enum is only a name here. */
  datatype MessageType = MessageType(name: Option<string>, nested: seq<MessageType>, enums: seq<Option<string>>)

  datatype Service = Service(name: Option<string>, methods: seq<Option<string>>)

  /** A file's descriptor, with the bytes it is served as. */
  datatype File = File(
    name: Option<string>, package: Option<string>, services: seq<Service>,
    messages: seq<MessageType>, enums: seq<Option<string>>, data: bytes)
  {
    function Package(): string {
      if package.Some? then package.value else ""
    }
  }

  function MakeFqn(package: string, name: string): string {
    if package == "" then name else package + "." + name
  }

  // ---- What a file declares --------------------------------------------------------------------------

  /** The path of names leads to a message, or to an enum inside one; nothing is found below an unnamed message. */
  predicate IsPath(messages: seq<MessageType>, path: seq<string>)
    decreases path
  {
    path != [] &&
    exists i :: 0 <= i < |messages| && messages[i].name == Some(path[0]) && Continues(messages[i], path)
  }

  predicate Continues(message: MessageType, path: seq<string>)
    requires path != []
    decreases path, 0
  {
    |path| == 1 || IsPath(message.nested, path[1..]) || (|path| == 2 && Some(path[1]) in message.enums)
  }

  /** The name of what a path leads to. */
  function Dotted(scope: string, path: seq<string>): string
    decreases path
  {
    if path == [] then scope else Dotted(MakeFqn(scope, path[0]), path[1..])
  }

  function Joined(names: seq<string>): string {
    if names == [] then ""
    else if |names| == 1 then names[0]
    else names[0] + "." + Joined(names[1..])
  }

  /** A symbol is the package and the names around it joined by dots, the package left out when empty. */
  lemma {:induction false} DottedIsJoined(scope: string, path: seq<string>)
    requires path != [] && forall i :: 0 <= i < |path| ==> path[i] != ""
    ensures Dotted(scope, path) == Joined((if scope == "" then [] else [scope]) + path)
    decreases path
  {
    var fqn := MakeFqn(scope, path[0]);
    if |path| == 1 {
      assert path[1..] == [] && path == [path[0]];
      assert ([scope] + path)[1..] == path;
      assert [] + path == path;
    } else {
      DottedIsJoined(fqn, path[1..]);
      assert ([fqn] + path[1..])[1..] == path[1..];
      if scope == "" {
        assert [] + path == path;
      } else {
        assert ([scope] + path)[1..] == path;
        assert scope + "." + (path[0] + "." + Joined(path[1..])) == fqn + "." + Joined(path[1..]);
      }
    }
  }

  ghost predicate MessagesDeclare(scope: string, messages: seq<MessageType>, symbol: string) {
    exists path :: IsPath(messages, path) && symbol == Dotted(scope, path)
  }

  ghost predicate EnumsDeclare(scope: string, enums: seq<Option<string>>, symbol: string) {
    exists name :: Some(name) in enums && symbol == MakeFqn(scope, name)
  }

  ghost predicate MethodsDeclare(fqn: string, methods: seq<Option<string>>, symbol: string) {
    exists name :: Some(name) in methods && symbol == fqn + "." + name
  }

  ghost predicate ServiceDeclares(package: string, service: Service, symbol: string) {
    service.name.Some? &&
    var fqn := MakeFqn(package, service.name.value);
    symbol == fqn || MethodsDeclare(fqn, service.methods, symbol)
  }

  ghost predicate ServicesDeclare(package: string, services: seq<Service>, symbol: string) {
    exists i :: 0 <= i < |services| && ServiceDeclares(package, services[i], symbol)
  }

  ghost predicate Declares(file: File, symbol: string) {
    ServicesDeclare(file.Package(), file.services, symbol) ||
    MessagesDeclare(file.Package(), file.messages, symbol) ||
    EnumsDeclare(file.Package(), file.enums, symbol)
  }

  /** The search an index saves: the last file that declares the symbol. */
  ghost function Declaring(files: seq<File>, symbol: string): Option<bytes> {
    if files == [] then None
    else
      var last := files[|files| - 1];
      if Declares(last, symbol) then Some(last.data) else Declaring(files[..|files| - 1], symbol)
  }

  ghost function Named(files: seq<File>, name: string): Option<bytes> {
    if files == [] then None
    else
      var last := files[|files| - 1];
      if last.name == Some(name) then Some(last.data) else Named(files[..|files| - 1], name)
  }

  // ---- The index -------------------------------------------------------------------------------------

  /** The index after a walk is the index before, with every symbol walked over now leading to the data. */
  ghost predicate Overlaid(before: map<string, bytes>, after: map<string, bytes>, data: bytes, walked: string -> bool) {
    forall symbol ::
      (symbol in after <==> symbol in before || walked(symbol)) &&
      (symbol in after ==> after[symbol] == if walked(symbol) then data else before[symbol])
  }

  /** Walking one more message adds the message, what is nested in it, and its enums. */
  lemma OneMoreMessage(scope: string, messages: seq<MessageType>, message: MessageType, symbol: string)
    ensures MessagesDeclare(scope, messages + [message], symbol) <==>
            MessagesDeclare(scope, messages, symbol) || MessageDeclares(scope, message, symbol)
  {
    var all := messages + [message];
    if path :| IsPath(all, path) && symbol == Dotted(scope, path) {
      var i :| 0 <= i < |all| && all[i].name == Some(path[0]) && Continues(all[i], path);
      if i < |messages| {
        assert messages[i] == all[i];
        assert IsPath(messages, path);
      } else {
        PathInMessage(scope, message, path);
      }
    }
    if path :| IsPath(messages, path) && symbol == Dotted(scope, path) {
      var i :| 0 <= i < |messages| && messages[i].name == Some(path[0]) && Continues(messages[i], path);
      assert all[i] == messages[i];
      assert IsPath(all, path);
    }
    if MessageDeclares(scope, message, symbol) {
      MessageHasPath(scope, message, symbol, all, |messages|);
    }
  }

  lemma PathInMessage(scope: string, message: MessageType, path: seq<string>)
    requires path != [] && message.name == Some(path[0]) && Continues(message, path)
    ensures MessageDeclares(scope, message, Dotted(scope, path))
  {
    var fqn := MakeFqn(scope, path[0]);
    if |path| == 1 {
      assert path[1..] == [];
    } else if !IsPath(message.nested, path[1..]) {
      assert path[1..] == [path[1]];
      assert Dotted(fqn, [path[1]]) == MakeFqn(fqn, path[1]);
    }
  }

  lemma MessageHasPath(scope: string, message: MessageType, symbol: string, all: seq<MessageType>, i: nat)
    requires i < |all| && all[i] == message && MessageDeclares(scope, message, symbol)
    ensures MessagesDeclare(scope, all, symbol)
  {
    var fqn := MakeFqn(scope, message.name.value);
    if symbol == fqn {
      IsUnder(all, i, scope, []);
    } else if rest :| IsPath(message.nested, rest) && symbol == Dotted(fqn, rest) {
      assert ([message.name.value] + rest)[1..] == rest;
      IsUnder(all, i, scope, rest);
    } else {
      var e :| Some(e) in message.enums && symbol == MakeFqn(fqn, e);
      assert Dotted(fqn, [e]) == symbol;
      IsUnder(all, i, scope, [e]);
    }
  }

  lemma IsUnder(messages: seq<MessageType>, i: nat, scope: string, rest: seq<string>)
    requires i < |messages| && messages[i].name.Some? && Continues(messages[i], [messages[i].name.value] + rest)
    ensures
      var path := [messages[i].name.value] + rest;
      IsPath(messages, path) && Dotted(scope, path) == Dotted(MakeFqn(scope, path[0]), rest)
  {
    var path := [messages[i].name.value] + rest;
    assert path[1..] == rest;
  }

  ghost predicate MessageDeclares(scope: string, message: MessageType, symbol: string) {
    message.name.Some? &&
    var fqn := MakeFqn(scope, message.name.value);
    symbol == fqn || MessagesDeclare(fqn, message.nested, symbol) || EnumsDeclare(fqn, message.enums, symbol)
  }

  lemma MessageWalked(
    before: map<string, bytes>, nested: map<string, bytes>, after: map<string, bytes>,
    scope: string, message: MessageType, data: bytes)
    requires message.name.Some?
    requires
      var fqn := MakeFqn(scope, message.name.value);
      Overlaid(before[fqn := data], nested, data, symbol => MessagesDeclare(fqn, message.nested, symbol)) &&
      Overlaid(nested, after, data, symbol => EnumsDeclare(fqn, message.enums, symbol))
    ensures Overlaid(before, after, data, symbol => MessageDeclares(scope, message, symbol))
  {
  }

  lemma MessagesWalked(
    first: map<string, bytes>, before: map<string, bytes>, after: map<string, bytes>,
    scope: string, messages: seq<MessageType>, message: MessageType, data: bytes)
    requires Overlaid(first, before, data, symbol => MessagesDeclare(scope, messages, symbol))
    requires Overlaid(before, after, data, symbol => MessageDeclares(scope, message, symbol))
    ensures Overlaid(first, after, data, symbol => MessagesDeclare(scope, messages + [message], symbol))
  {
    forall symbol {
      OneMoreMessage(scope, messages, message, symbol);
    }
  }

  /** The full names of the services that have one. */
  function NamesOf(package: string, services: seq<Service>): seq<string> {
    if services == [] then []
    else
      var last := |services| - 1;
      NamesOf(package, services[..last]) + NameOf(package, services[last])
  }

  function NameOf(package: string, service: Service): seq<string> {
    if service.name.Some? then [MakeFqn(package, service.name.value)] else []
  }

  function AllNames(files: seq<File>): seq<string> {
    if files == [] then []
    else
      var last := |files| - 1;
      AllNames(files[..last]) + NamesOf(files[last].Package(), files[last].services)
  }

  lemma OneMoreFile(registered: seq<File>, names: seq<string>, descriptors: seq<File>, i: nat)
    requires i < |descriptors|
    ensures registered + descriptors[..i] + [descriptors[i]] == registered + descriptors[..i + 1]
    ensures names + AllNames(descriptors[..i]) + NamesOf(descriptors[i].Package(), descriptors[i].services)
         == names + AllNames(descriptors[..i + 1])
  {
    assert descriptors[..i + 1][..i] == descriptors[..i];
    assert descriptors[..i + 1] == descriptors[..i] + [descriptors[i]];
  }

  lemma ServicesWalked(
    first: map<string, bytes>, before: map<string, bytes>, after: map<string, bytes>,
    package: string, services: seq<Service>, service: Service, data: bytes)
    requires Overlaid(first, before, data, symbol => ServicesDeclare(package, services, symbol))
    requires Overlaid(before, after, data, symbol => ServiceDeclares(package, service, symbol))
    ensures Overlaid(first, after, data, symbol => ServicesDeclare(package, services + [service], symbol))
    ensures NamesOf(package, services + [service]) == NamesOf(package, services) + NameOf(package, service)
  {
    var all := services + [service];
    assert all[..|services|] == services;
    forall symbol
      ensures ServicesDeclare(package, all, symbol) <==>
              ServicesDeclare(package, services, symbol) || ServiceDeclares(package, service, symbol)
    {
      assert all[|services|] == service;
      assert forall k :: 0 <= k < |services| ==> all[k] == services[k];
    }
  }

  lemma FileWalked(
    before: map<string, bytes>, services: map<string, bytes>, messages: map<string, bytes>, after: map<string, bytes>,
    file: File)
    requires Overlaid(before, services, file.data, symbol => ServicesDeclare(file.Package(), file.services, symbol))
    requires Overlaid(services, messages, file.data, symbol => MessagesDeclare(file.Package(), file.messages, symbol))
    requires Overlaid(messages, after, file.data, symbol => EnumsDeclare(file.Package(), file.enums, symbol))
    ensures Overlaid(before, after, file.data, symbol => Declares(file, symbol))
  {
  }

  lemma IndexesMore(
    symbols: map<string, bytes>, files: map<string, bytes>, registered: seq<File>,
    moreSymbols: map<string, bytes>, moreFiles: map<string, bytes>, file: File)
    requires Indexes(symbols, files, registered)
    requires Overlaid(symbols, moreSymbols, file.data, symbol => Declares(file, symbol))
    requires moreFiles == if file.name.Some? then files[file.name.value := file.data] else files
    ensures Indexes(moreSymbols, moreFiles, registered + [file])
  {
    assert (registered + [file])[..|registered|] == registered;
  }

  /** Looking a symbol or a file name up in the index agrees with searching the registered files. */
  ghost predicate Indexes(symbols: map<string, bytes>, files: map<string, bytes>, registered: seq<File>) {
    (forall symbol :: Declaring(registered, symbol) == if symbol in symbols then Some(symbols[symbol]) else None) &&
    (forall name :: Named(registered, name) == if name in files then Some(files[name]) else None)
  }

  datatype ReflectionState = ReflectionState(
    serviceNames: seq<string>, symbols: map<string, bytes>, files: map<string, bytes>)

  const REFLECTION_NAME := "grpc.reflection.v1.ServerReflection"

  class ReflectionServerBuilder {
    var serviceNames: seq<string>
    var symbols: map<string, bytes>
    var files: map<string, bytes>
    ghost var registered: seq<File>

    ghost predicate Valid()
      reads this
    {
      Indexes(symbols, files, registered)
    }

    constructor ()
      ensures Valid() && registered == [] && serviceNames == []
    {
      serviceNames, symbols, files, registered := [], map[], map[], [];
    }

    method IndexEnums(scope: string, enums: seq<Option<string>>, data: bytes)
      modifies this`symbols
      ensures Overlaid(old(symbols), symbols, data, symbol => EnumsDeclare(scope, enums, symbol))
    {
      for i := 0 to |enums|
        invariant Overlaid(old(symbols), symbols, data, symbol => EnumsDeclare(scope, enums[..i], symbol))
      {
        assert enums[..i + 1] == enums[..i] + [enums[i]];
        if enums[i].Some? {
          symbols := symbols[MakeFqn(scope, enums[i].value) := data];
        }
      }
      assert enums[..|enums|] == enums;
    }

    method IndexMessageTypes(scope: string, messages: seq<MessageType>, data: bytes)
      modifies this`symbols
      ensures Overlaid(old(symbols), symbols, data, symbol => MessagesDeclare(scope, messages, symbol))
      decreases messages
    {
      for i := 0 to |messages|
        invariant Overlaid(old(symbols), symbols, data, symbol => MessagesDeclare(scope, messages[..i], symbol))
      {
        ghost var before := symbols;
        var message := messages[i];
        if message.name.Some? {
          var fqn := MakeFqn(scope, message.name.value);
          symbols := symbols[fqn := data];
          IndexMessageTypes(fqn, message.nested, data);
          ghost var nested := symbols;
          IndexEnums(fqn, message.enums, data);
          MessageWalked(before, nested, symbols, scope, message, data);
        }
        MessagesWalked(old(symbols), before, symbols, scope, messages[..i], message, data);
        assert messages[..i + 1] == messages[..i] + [message];
      }
      assert messages[..|messages|] == messages;
    }

    method IndexMethods(fqn: string, methods: seq<Option<string>>, data: bytes)
      modifies this`symbols
      ensures Overlaid(old(symbols), symbols, data, symbol => MethodsDeclare(fqn, methods, symbol))
    {
      for i := 0 to |methods|
        invariant Overlaid(old(symbols), symbols, data, symbol => MethodsDeclare(fqn, methods[..i], symbol))
      {
        assert methods[..i + 1] == methods[..i] + [methods[i]];
        if methods[i].Some? {
          symbols := symbols[fqn + "." + methods[i].value := data];
        }
      }
      assert methods[..|methods|] == methods;
    }

    /** A service, its methods, and its name in the list of services. */
    method IndexService(package: string, service: Service, data: bytes)
      modifies this`symbols, this`serviceNames
      ensures Overlaid(old(symbols), symbols, data, symbol => ServiceDeclares(package, service, symbol))
      ensures serviceNames == old(serviceNames) + NameOf(package, service)
    {
      if service.name.Some? {
        var fqn := MakeFqn(package, service.name.value);
        serviceNames := serviceNames + [fqn];
        symbols := symbols[fqn := data];
        IndexMethods(fqn, service.methods, data);
      }
    }

    method IndexServices(package: string, services: seq<Service>, data: bytes)
      modifies this`symbols, this`serviceNames
      ensures Overlaid(old(symbols), symbols, data, symbol => ServicesDeclare(package, services, symbol))
      ensures serviceNames == old(serviceNames) + NamesOf(package, services)
    {
      for i := 0 to |services|
        invariant Overlaid(old(symbols), symbols, data, symbol => ServicesDeclare(package, services[..i], symbol))
        invariant serviceNames == old(serviceNames) + NamesOf(package, services[..i])
      {
        ghost var before := symbols;
        IndexService(package, services[i], data);
        ServicesWalked(old(symbols), before, symbols, package, services[..i], services[i], data);
        assert services[..i + 1] == services[..i] + [services[i]];
      }
      assert services[..|services|] == services;
    }

    method RegisterFile(file: File)
      requires Valid()
      modifies this
      ensures Valid() && registered == old(registered) + [file]
      ensures serviceNames == old(serviceNames) + NamesOf(file.Package(), file.services)
    {
      if file.name.Some? {
        files := files[file.name.value := file.data];
      }
      IndexServices(file.Package(), file.services, file.data);
      ghost var services := symbols;
      IndexMessageTypes(file.Package(), file.messages, file.data);
      ghost var messages := symbols;
      IndexEnums(file.Package(), file.enums, file.data);
      FileWalked(old(symbols), services, messages, symbols, file);
      registered := registered + [file];
      IndexesMore(old(symbols), old(files), old(registered), symbols, files, file);
    }

    /** All files of a decoded descriptor set, in their order. */
    method Register(descriptors: seq<File>)
      requires Valid()
      modifies this
      ensures Valid() && registered == old(registered) + descriptors
      ensures serviceNames == old(serviceNames) + AllNames(descriptors)
    {
      for i := 0 to |descriptors|
        invariant Valid() && registered == old(registered) + descriptors[..i]
        invariant serviceNames == old(serviceNames) + AllNames(descriptors[..i])
      {
        RegisterFile(descriptors[i]);
        OneMoreFile(old(registered), old(serviceNames), descriptors, i);
      }
      assert descriptors[..|descriptors|] == descriptors;
    }

    /** The reflection service lists itself, once. */
    method Build() returns (state: ReflectionState)
      requires Valid()
      ensures Indexes(state.symbols, state.files, registered)
      ensures var own := "grpc.reflection.v1.ServerReflection";
              state.serviceNames == serviceNames + if own in serviceNames then [] else [own]
    {
      var names := serviceNames;
      if REFLECTION_NAME !in names {
        names := names + [REFLECTION_NAME];
      }
      state := ReflectionState(names, symbols, files);
    }
  }

  // ---- Answering requests ----------------------------------------------------------------------------

  datatype MessageRequest =
    | ListServices
    | FileContainingSymbol(symbol: string)
    | FileByFilename(name: string)
    | AllExtensionNumbersOfType
    | Unrecognised

  datatype MessageResponse =
    | ListServicesResponse(services: seq<string>)
    | FileDescriptorResponse(data: bytes)
    | ErrorResponse(code: Code, message: string)

  function HandleReflectionRequest(state: ReflectionState, request: MessageRequest): MessageResponse {
    match request
    case ListServices => ListServicesResponse(state.serviceNames)
    case FileContainingSymbol(symbol) =>
      if symbol in state.symbols then FileDescriptorResponse(state.symbols[symbol])
      else ErrorResponse(NotFound, "symbol not found: " + symbol)
    case FileByFilename(name) =>
      if name in state.files then FileDescriptorResponse(state.files[name])
      else ErrorResponse(NotFound, "file not found: " + name)
    case AllExtensionNumbersOfType => ErrorResponse(Unimplemented, "extensions not supported")
    case Unrecognised => ErrorResponse(InvalidArgument, "unknown request type")
  }

  ghost predicate IsLast(registered: seq<File>, i: nat, symbol: string)
    requires i < |registered|
  {
    Declares(registered[i], symbol) && forall j :: i < j < |registered| ==> !Declares(registered[j], symbol)
  }

  /** The full names of all services that have a name, and no others. */
  lemma {:induction false} NamesAreThose(package: string, services: seq<Service>, fqn: string)
    ensures fqn in NamesOf(package, services)
       <==> exists i :: 0 <= i < |services| && services[i].name.Some? && fqn == MakeFqn(package, services[i].name.value)
  {
    if services != [] {
      var last := |services| - 1;
      NamesAreThose(package, services[..last], fqn);
      assert forall i :: 0 <= i < last ==> services[..last][i] == services[i];
    }
  }

  /** Requests that are no lookups: the list of services as it is, and a code for what is not supported. */
  lemma OtherAnswers(state: ReflectionState)
    ensures HandleReflectionRequest(state, ListServices) == ListServicesResponse(state.serviceNames)
    ensures var answer := HandleReflectionRequest(state, AllExtensionNumbersOfType);
            answer.ErrorResponse? && answer.code == Unimplemented
    ensures var answer := HandleReflectionRequest(state, Unrecognised);
            answer.ErrorResponse? && answer.code == InvalidArgument
  {
  }

  ghost predicate IsLastNamed(registered: seq<File>, i: nat, name: string)
    requires i < |registered|
  {
    registered[i].name == Some(name) && forall j :: i < j < |registered| ==> registered[j].name != Some(name)
  }

  lemma {:induction false} NamedIsLast(registered: seq<File>, name: string)
    ensures Named(registered, name) == None <==> forall i :: 0 <= i < |registered| ==> registered[i].name != Some(name)
    ensures forall i :: 0 <= i < |registered| && IsLastNamed(registered, i, name) ==>
              Named(registered, name) == Some(registered[i].data)
  {
    if registered != [] {
      var n := |registered| - 1;
      NamedIsLast(registered[..n], name);
      forall i | 0 <= i < n
        ensures IsLastNamed(registered, i, name) ==> IsLastNamed(registered[..n], i, name)
      {
      }
    }
  }

  /** An index of registered files answers as a search through all of them would, the last file first. */
  lemma AnswersAreSearches(state: ReflectionState, registered: seq<File>, symbol: string)
    requires Indexes(state.symbols, state.files, registered)
    ensures
      var answer := HandleReflectionRequest(state, FileContainingSymbol(symbol));
      match Declaring(registered, symbol)
      case Some(data) => answer == FileDescriptorResponse(data)
      case None => answer.ErrorResponse? && answer.code == NotFound
    ensures forall name ::
              HandleReflectionRequest(state, FileByFilename(name)) ==
                if Named(registered, name).Some? then FileDescriptorResponse(Named(registered, name).value)
                else ErrorResponse(NotFound, "file not found: " + name)
    ensures forall name, i :: 0 <= i < |registered| && IsLastNamed(registered, i, name) ==>
              HandleReflectionRequest(state, FileByFilename(name)) == FileDescriptorResponse(registered[i].data)
    ensures HandleReflectionRequest(state, FileContainingSymbol(symbol)).ErrorResponse? <==>
            forall i :: 0 <= i < |registered| ==> !Declares(registered[i], symbol)
    ensures forall i :: 0 <= i < |registered| && IsLast(registered, i, symbol) ==>
              HandleReflectionRequest(state, FileContainingSymbol(symbol)) == FileDescriptorResponse(registered[i].data)
  {
    DeclaringIsLast(registered, symbol);
    forall name {
      NamedIsLast(registered, name);
    }
  }

  lemma {:induction false} DeclaringIsLast(registered: seq<File>, symbol: string)
    ensures Declaring(registered, symbol) == None
       <==> forall i :: 0 <= i < |registered| ==> !Declares(registered[i], symbol)
    ensures forall i :: 0 <= i < |registered| && IsLast(registered, i, symbol) ==>
              Declaring(registered, symbol) == Some(registered[i].data)
  {
    if registered != [] {
      var n := |registered| - 1;
      DeclaringIsLast(registered[..n], symbol);
      forall i | 0 <= i < n
        ensures IsLast(registered, i, symbol) ==> IsLast(registered[..n], i, symbol)
      {
      }
    }
  }

  // ---- A file with every kind of symbol ----------------------------------------------------------------

  lemma OneMessage(scope: string, message: MessageType, symbol: string)
    ensures MessagesDeclare(scope, [message], symbol) <==> MessageDeclares(scope, message, symbol)
  {
    OneMoreMessage(scope, [], message, symbol);
    assert [] + [message] == [message];
  }

  /** Nothing is declared below a message without a name. */
  lemma UnnamedHides(scope: string, nested: seq<MessageType>, enums: seq<Option<string>>, symbol: string)
    ensures !MessagesDeclare(scope, [MessageType(None, nested, enums)], symbol)
  {
    OneMessage(scope, MessageType(None, nested, enums), symbol);
  }

  /** A message holding another, which holds an enum. */
  lemma NestedSymbols(symbol: string)
    ensures
      var inner := MessageType(Some("B"), [], [Some("E")]);
      MessagesDeclare("p", [MessageType(Some("A"), [inner], [])], symbol) <==> symbol in ["p.A", "p.A.B", "p.A.B.E"]
  {
    var inner := MessageType(Some("B"), [], [Some("E")]);
    OneMessage("p", MessageType(Some("A"), [inner], []), symbol);
    OneMessage("p.A", inner, symbol);
    assert "p" + "." + "A" == "p.A" && "p.A" + "." + "B" == "p.A.B" && "p.A.B" + "." + "E" == "p.A.B.E";
    assert MakeFqn("p", "A") == "p.A" && MakeFqn("p.A", "B") == "p.A.B" && MakeFqn("p.A.B", "E") == "p.A.B.E";
    assert EnumsDeclare("p.A.B", [Some("E")], symbol) <==> symbol == "p.A.B.E" by {
      assert Some("E") in [Some("E")];
    }
  }

  lemma ServiceSymbols(symbol: string)
    ensures ServicesDeclare("p", [Service(Some("S"), [Some("M"), None])], symbol) <==> symbol in ["p.S", "p.S.M"]
  {
    var service := Service(Some("S"), [Some("M"), None]);
    assert "p" + "." + "S" == "p.S" && "p.S" + "." + "M" == "p.S.M" && MakeFqn("p", "S") == "p.S";
    assert MethodsDeclare("p.S", service.methods, symbol) <==> symbol == "p.S.M" by {
      assert Some("M") in service.methods;
    }
    assert ServicesDeclare("p", [service], symbol) <==> ServiceDeclares("p", service, symbol) by {
      assert [service][0] == service;
    }
  }

  /** Service, method, message, nested message, nested enum and enum, and nothing else. */
  lemma EveryKindIsDeclared(symbol: string)
    ensures
      var file := File(
        Some("f"), Some("p"), [Service(Some("S"), [Some("M"), None])],
        [MessageType(Some("A"), [MessageType(Some("B"), [], [Some("E")])], [])], [Some("T")], []);
      Declares(file, symbol) <==> symbol in ["p.S", "p.S.M", "p.A", "p.A.B", "p.A.B.E", "p.T"]
  {
    NestedSymbols(symbol);
    ServiceSymbols(symbol);
    assert "p" + "." + "T" == "p.T" && MakeFqn("p", "T") == "p.T";
    assert EnumsDeclare("p", [Some("T")], symbol) <==> symbol == "p.T" by {
      assert Some("T") in [Some("T")];
    }
  }
}
