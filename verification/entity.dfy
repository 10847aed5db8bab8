/** The entity views the navigator hands out: packages, services, RPCs,
    messages and the field tree of a message. Their Go definitions live in
    files that are not part of this model; only the members the engine
    reads are kept. */
module Entity {
  import opened Wrappers
  import opened Errors
  import opened Schema

  datatype RPC = RPC(name: string, requestType: MessageDesc, responseType: MessageDesc)

  datatype Service = Service(name: string, rpcs: seq<RPC>)

  datatype Message = Message(name: string, desc: MessageDesc)

  datatype Package = Package(name: string, services: seq<Service>, messages: seq<Message>)

  /** A built field: name and type copied from the descriptor, and for a
      message-typed field the fields of its type. */
  datatype Field = Field(
    name: string,
    typ: FieldType,
    desc: FieldDesc,
    isMessage: bool,
    fields: seq<Field>)

  /** The linear "first element whose name equals" search that every lookup
      of the engine performs: the index of the first match, if any. */
  function FindFirst<T>(xs: seq<T>, nameOf: T -> string, name: string): (r: Option<nat>)
    ensures r.Some? ==> r.value < |xs| && nameOf(xs[r.value]) == name
    ensures r.Some? ==> forall j :: 0 <= j < r.value ==> nameOf(xs[j]) != name
    ensures r.None? <==> forall j :: 0 <= j < |xs| ==> nameOf(xs[j]) != name
  {
    if |xs| == 0 then None
    else if nameOf(xs[0]) == name then Some(0)
    else
      match FindFirst(xs[1..], nameOf, name)
      case None => None
      case Some(i) => Some(i + 1)
  }

  /** `x` is the first element of `xs` named `name`. */
  ghost predicate FirstNamed<T>(xs: seq<T>, nameOf: T -> string, name: string, x: T) {
    exists i :: 0 <= i < |xs| && xs[i] == x && nameOf(x) == name
      && forall j :: 0 <= j < i ==> nameOf(xs[j]) != name
  }

  /** Some element of `xs` is named `name`. */
  predicate HasNamed<T>(xs: seq<T>, nameOf: T -> string, name: string) {
    exists j :: 0 <= j < |xs| && nameOf(xs[j]) == name
  }

  /** The element a successful search found is the first one so named. */
  lemma FindFirstIsFirst<T>(xs: seq<T>, nameOf: T -> string, name: string)
    ensures FindFirst(xs, nameOf, name).Some? <==> HasNamed(xs, nameOf, name)
    ensures FindFirst(xs, nameOf, name).Some? ==>
      FirstNamed(xs, nameOf, name, xs[FindFirst(xs, nameOf, name).value])
  {
  }

  function PackageName(p: Package): string { p.name }
  function ServiceName(s: Service): string { s.name }
  function MessageName(m: Message): string { m.name }
  function RPCName(r: RPC): string { r.name }

  /** `Package.GetMessage(name)`: the package's message with that bare name.
      Its definition is not part of this model; it is taken to be the same
      first-match search, failing with an invalid-message-name error. */
  function GetMessage(p: Package, name: string): (r: Result<Message, Error>)
    ensures r.Success? <==> HasNamed(p.messages, MessageName, name)
    ensures r.Success? ==> FirstNamed(p.messages, MessageName, name, r.value)
    ensures r.Failure? ==> r.error == NotFound(InvalidMessageName, name)
  {
    FindFirstIsFirst(p.messages, MessageName, name);
    match FindFirst(p.messages, MessageName, name)
    case Some(i) => Success(p.messages[i])
    case None => Failure(NotFound(InvalidMessageName, name))
  }
}
