/** Field-tree construction of entity/field.go: the classification of a
    field, the local cache of a message's nested leaf types, and the
    recursive expansion of message-typed fields. */
module FieldTree {
  import opened Wrappers
  import opened Errors
  import opened Schema
  import opened Entity

  /** The three field markers `newField` can produce. */
  datatype FieldClass = MessageField | EnumField | OneOfField

  /** Whether a marker describes the field at all. */
  predicate Applies(d: FieldDesc, c: FieldClass) {
    match c
    case MessageField => IsMessageType(d.typ)
    case EnumField => IsEnumType(d)
    case OneOfField => IsOneOf(d)
  }

  /** The order in which `newField` tries the markers. */
  function Priority(c: FieldClass): nat {
    match c
    case MessageField => 0
    case EnumField => 1
    case OneOfField => 2
  }

  /** `newField`: the first applicable marker in priority order; a field
      none applies to makes the Go code panic with "unsupported type". */
  function NewField(d: FieldDesc): (r: Result<FieldClass, Error>)
    ensures r.Success? ==> Applies(d, r.value)
    ensures r.Success? ==> forall c :: Applies(d, c) ==> Priority(r.value) <= Priority(c)
    ensures r.Failure? <==> forall c :: !Applies(d, c)
    ensures r.Failure? ==> r.error == Panic("unsupported type: " + d.fqJsonName)
  {
    if IsMessageType(d.typ) then assert Applies(d, MessageField); Success(MessageField)
    else if IsEnumType(d) then assert Applies(d, EnumField); Success(EnumField)
    else if IsOneOf(d) then assert Applies(d, OneOfField); Success(OneOfField)
    else
      assert !Applies(d, MessageField) && !Applies(d, EnumField) && !Applies(d, OneOfField);
      Failure(Panic("unsupported type: " + d.fqJsonName))
  }

  // ---------------------------------------------------------------------
  // The local message cache.

  /** The leaf message types reachable through nested declarations of `ms`
      (a message that declares nested types is not itself a leaf). */
  ghost function LeafSet(ms: seq<MessageDesc>): (r: set<MessageDesc>)
    ensures forall d :: d in r ==> d.nested == []
    decreases ms
  {
    if |ms| == 0 then {}
    else (if |ms[0].nested| == 0 then {ms[0]} else LeafSet(ms[0].nested)) + LeafSet(ms[1..])
  }

  /** Their fully-qualified names. */
  ghost function LeafFqns(ms: seq<MessageDesc>): set<string> {
    set d | d in LeafSet(ms) :: d.fqn
  }

  /** LeafFqns splits like LeafSet: the head's leaves, then the tail's. */
  lemma LeafFqnsCons(ms: seq<MessageDesc>)
    requires |ms| > 0
    ensures LeafFqns(ms) == (if |ms[0].nested| == 0 then {ms[0].fqn} else LeafFqns(ms[0].nested)) + LeafFqns(ms[1..])
  {
  }

  /** `resolveLocalMessage`, applied in order to each message of `ms`: a
      message without nested types is recorded under its FQN, any other
      message is only descended into. */
  function ResolveAll(cache: map<string, Message>, ms: seq<MessageDesc>): map<string, Message>
    decreases ms
  {
    if |ms| == 0 then cache
    else
      var m := ms[0];
      var c1 := if |m.nested| == 0 then cache[m.fqn := Message(m.name, m)] else ResolveAll(cache, m.nested);
      ResolveAll(c1, ms[1..])
  }

  /** ResolveAll records exactly the leaf messages of the nested tree, each
      under its own FQN with its own name, and keeps every other entry. */
  lemma {:induction false} ResolveAllLeaves(cache: map<string, Message>, ms: seq<MessageDesc>)
    ensures var r := ResolveAll(cache, ms);
      && r.Keys == cache.Keys + LeafFqns(ms)
      && (forall k :: k in r && k !in LeafFqns(ms) ==> r[k] == cache[k])
      && (forall k :: k in r && k in LeafFqns(ms) ==>
            r[k].desc in LeafSet(ms) && r[k].desc.fqn == k && r[k].name == r[k].desc.name)
    decreases ms
  {
    if |ms| > 0 {
      var m := ms[0];
      if |m.nested| > 0 {
        ResolveAllLeaves(cache, m.nested);
      }
      var c1 := if |m.nested| == 0 then cache[m.fqn := Message(m.name, m)] else ResolveAll(cache, m.nested);
      ResolveAllLeaves(c1, ms[1..]);
      LeafFqnsCons(ms);
    }
  }

  /** `resolveLocalMessage(cache, msg)`. */
  function ResolveLocalMessage(cache: map<string, Message>, msg: MessageDesc): map<string, Message> {
    ResolveAll(cache, [msg])
  }

  /** A message with nested types is not recorded under its own name: the
      root passed in by NewFields included, unless a nested leaf happens to
      share its FQN. A leaf root is recorded. */
  lemma RootRecordedOnlyAsLeaf(msg: MessageDesc)
    ensures |msg.nested| == 0 ==>
      (msg.fqn in ResolveLocalMessage(map[], msg)
       && ResolveLocalMessage(map[], msg)[msg.fqn] == Message(msg.name, msg))
    ensures |msg.nested| > 0 && msg.fqn !in LeafFqns(msg.nested) ==> msg.fqn !in ResolveLocalMessage(map[], msg)
  {
    assert [msg][1..] == [];
    assert LeafSet([msg]) == (if |msg.nested| == 0 then {msg} else LeafSet(msg.nested));
    ResolveAllLeaves(map[], [msg]);
  }

  // ---------------------------------------------------------------------
  // NewFields.

  /** The type of a message-typed field: a local-cache hit by FQN wins,
      otherwise the package's message of the bare name. */
  function ResolveFieldType(pkg: Package, local: map<string, Message>, ref: TypeRef): (r: Result<Message, Error>)
    ensures ref.fqn in local ==> r == Success(local[ref.fqn])
    ensures ref.fqn !in local ==> (r.Success? <==> HasNamed(pkg.messages, MessageName, ref.name))
    ensures ref.fqn !in local && r.Success? ==> FirstNamed(pkg.messages, MessageName, ref.name, r.value)
    ensures r.Failure? ==> r.error == NotFound(InvalidMessageName, ref.name)
  {
    if ref.fqn in local then Success(local[ref.fqn]) else GetMessage(pkg, ref.name)
  }

  /** A built field carries its descriptor's name and type, is marked as a
      message exactly when the type is TYPE_MESSAGE, and only then has a
      subtree. */
  predicate CopiedFrom(f: Field, d: FieldDesc) {
    && f.name == d.name && f.typ == d.typ && f.desc == d
    && (f.isMessage <==> IsMessageType(d.typ))
    && (!f.isMessage ==> f.fields == [])
  }

  /** The errors field construction can end with. */
  predicate FieldsError(e: Error) {
    e == DepthExceeded || e.Panic? || Is(e, InvalidMessageName)
  }

  /** `NewFields(pkg, msg)`, with a depth budget. The Go recursion has no
      cycle guard; where it would not return, the budget runs out and the
      model reports DepthExceeded. */
  function NewFields(pkg: Package, msg: Message, fuel: nat): (r: Result<seq<Field>, Error>)
    ensures r.Success? ==> |r.value| == |msg.desc.fields|
    ensures r.Success? ==> forall i :: 0 <= i < |r.value| ==> CopiedFrom(r.value[i], msg.desc.fields[i])
    ensures r.Failure? ==> FieldsError(r.error)
    ensures fuel == 0 ==> r == Failure(DepthExceeded)
    decreases fuel, 0
  {
    if fuel == 0 then Failure(DepthExceeded)
    else BuildFields(pkg, ResolveLocalMessage(map[], msg.desc), msg.desc.fields, fuel - 1)
  }

  /** The nested failures that do not come back as an error value in Go:
      a panic unwinds through every NewFields frame, and the budget running
      out stands for a recursion that never returns. */
  predicate Propagated(e: Error) {
    e == DepthExceeded || e.Panic?
  }

  /** The loop of NewFields over the declared fields. The error of the
      recursive call is assigned and never checked, so a failed nested
      expansion leaves an empty subtree and the loop goes on; only what
      Propagated names is passed up. */
  function BuildFields(pkg: Package, local: map<string, Message>, fields: seq<FieldDesc>, fuel: nat)
    : (r: Result<seq<Field>, Error>)
    ensures r.Success? ==> |r.value| == |fields|
    ensures r.Success? ==> forall i :: 0 <= i < |r.value| ==> CopiedFrom(r.value[i], fields[i])
    ensures r.Failure? ==> FieldsError(r.error)
    decreases fuel, |fields|
  {
    if |fields| == 0 then Success([])
    else
      var d := fields[0];
      var f := Field(d.name, d.typ, d, false, []);
      if IsMessageType(d.typ) then
        if d.messageType.None? then Failure(Panic("nil message type"))
        else
          var m :- ResolveFieldType(pkg, local, d.messageType.value);
          var sub := NewFields(pkg, m, fuel);
          if sub.Failure? && Propagated(sub.error) then Failure(sub.error)
          else
            var rest :- BuildFields(pkg, local, fields[1..], fuel);
            Success([f.(isMessage := true, fields := if sub.Success? then sub.value else [])] + rest)
      else
        var rest :- BuildFields(pkg, local, fields[1..], fuel);
        Success([f] + rest)
  }

  /** The subtree of field i of a successful build: the type resolves (local
      cache first), and the subtree is that type's own expansion, or empty
      when that expansion failed. */
  predicate SubtreeOk(pkg: Package, local: map<string, Message>, d: FieldDesc, f: Field, fuel: nat) {
    IsMessageType(d.typ) ==>
      && d.messageType.Some?
      && ResolveFieldType(pkg, local, d.messageType.value).Success?
      && var sub := NewFields(pkg, ResolveFieldType(pkg, local, d.messageType.value).value, fuel);
         (sub.Success? || !Propagated(sub.error)) && f.fields == (if sub.Success? then sub.value else [])
  }

  lemma {:induction false} BuildFieldsSubtrees(pkg: Package, local: map<string, Message>, fields: seq<FieldDesc>, fuel: nat)
    requires BuildFields(pkg, local, fields, fuel).Success?
    ensures var r := BuildFields(pkg, local, fields, fuel).value;
      forall i :: 0 <= i < |fields| ==> SubtreeOk(pkg, local, fields[i], r[i], fuel)
    decreases |fields|
  {
    if |fields| > 0 {
      BuildFieldsSubtrees(pkg, local, fields[1..], fuel);
      var r := BuildFields(pkg, local, fields, fuel).value;
      var rest := BuildFields(pkg, local, fields[1..], fuel).value;
      assert r[1..] == rest;
      forall i | 1 <= i < |fields|
        ensures SubtreeOk(pkg, local, fields[i], r[i], fuel)
      {
        assert fields[i] == fields[1..][i - 1] && r[i] == rest[i - 1];
      }
    }
  }

  /** NewFields on success: every message-typed field's subtree is the
      expansion of its resolved type, or empty if that expansion failed. */
  lemma NewFieldsSubtrees(pkg: Package, msg: Message, fuel: nat)
    requires NewFields(pkg, msg, fuel).Success?
    ensures fuel > 0
    ensures var r := NewFields(pkg, msg, fuel).value;
      forall i :: 0 <= i < |msg.desc.fields| ==>
        SubtreeOk(pkg, ResolveLocalMessage(map[], msg.desc), msg.desc.fields[i], r[i], fuel - 1)
  {
    BuildFieldsSubtrees(pkg, ResolveLocalMessage(map[], msg.desc), msg.desc.fields, fuel - 1);
  }

  /** NewFields with budget left is the loop over the declared fields,
      with the message's own local cache. */
  lemma NewFieldsUnfold(pkg: Package, msg: Message, fuel: nat)
    requires fuel > 0
    ensures NewFields(pkg, msg, fuel) == BuildFields(pkg, ResolveLocalMessage(map[], msg.desc), msg.desc.fields, fuel - 1)
  {
  }

  /** More budget changes nothing once the expansion has finished: the
      budget only ever shows up as DepthExceeded. */
  lemma {:induction false} NewFieldsFuelMonotone(pkg: Package, msg: Message, fuel: nat)
    requires NewFields(pkg, msg, fuel) != Failure(DepthExceeded)
    ensures NewFields(pkg, msg, fuel + 1) == NewFields(pkg, msg, fuel)
    decreases fuel, 0
  {
    assert fuel > 0;
    var local := ResolveLocalMessage(map[], msg.desc);
    NewFieldsUnfold(pkg, msg, fuel);
    NewFieldsUnfold(pkg, msg, fuel + 1);
    BuildFieldsFuelMonotone(pkg, local, msg.desc.fields, fuel - 1);
  }

  lemma {:induction false} BuildFieldsFuelMonotone(pkg: Package, local: map<string, Message>, fields: seq<FieldDesc>, fuel: nat)
    requires BuildFields(pkg, local, fields, fuel) != Failure(DepthExceeded)
    ensures BuildFields(pkg, local, fields, fuel + 1) == BuildFields(pkg, local, fields, fuel)
    decreases fuel, |fields|
  {
    if |fields| > 0 {
      var d := fields[0];
      if IsMessageType(d.typ) && d.messageType.Some? {
        var m := ResolveFieldType(pkg, local, d.messageType.value);
        if m.Success? {
          var sub := NewFields(pkg, m.value, fuel);
          if sub != Failure(DepthExceeded) {
            NewFieldsFuelMonotone(pkg, m.value, fuel);
            if sub.Success? || !Propagated(sub.error) {
              BuildFieldsFuelMonotone(pkg, local, fields[1..], fuel);
            }
          }
        }
      } else if !IsMessageType(d.typ) {
        BuildFieldsFuelMonotone(pkg, local, fields[1..], fuel);
      }
    }
  }

  /** A leaf message with a field of its own type: it finds itself in its
      local cache and recurses for ever. */
  predicate SelfReferential(msg: Message) {
    && msg.desc.nested == []
    && msg == Message(msg.desc.name, msg.desc)
    && |msg.desc.fields| > 0
    && IsMessageType(msg.desc.fields[0].typ)
    && msg.desc.fields[0].messageType == Some(TypeRef(msg.desc.fqn, msg.desc.name))
  }

  /** On such a schema no budget is enough: the expansion always reports
      DepthExceeded rather than returning a tree. */
  lemma {:induction false} SelfReferenceNeverFinishes(pkg: Package, msg: Message, fuel: nat)
    requires SelfReferential(msg)
    ensures NewFields(pkg, msg, fuel) == Failure(DepthExceeded)
    decreases fuel
  {
    if fuel > 0 {
      var local := ResolveLocalMessage(map[], msg.desc);
      RootRecordedOnlyAsLeaf(msg.desc);
      assert local[msg.desc.fqn] == msg;
      SelfReferenceNeverFinishes(pkg, msg, fuel - 1);
    }
  }

  /** A nested lookup failure does not fail the outer call: when the
      expansion of a field's type fails because a message name is not found,
      the field is still built, with an empty subtree, and the loop goes on. */
  lemma NestedFailureIgnored(pkg: Package, local: map<string, Message>, fields: seq<FieldDesc>, m: Message, e: Error, fuel: nat)
    requires |fields| > 0 && IsMessageType(fields[0].typ) && fields[0].messageType.Some?
    requires ResolveFieldType(pkg, local, fields[0].messageType.value) == Success(m)
    requires NewFields(pkg, m, fuel) == Failure(e) && Is(e, InvalidMessageName)
    requires BuildFields(pkg, local, fields[1..], fuel).Success?
    ensures BuildFields(pkg, local, fields, fuel).Success?
    ensures BuildFields(pkg, local, fields, fuel).value[0] == Field(fields[0].name, fields[0].typ, fields[0], true, [])
  {
    var d := fields[0];
    var rest := BuildFields(pkg, local, fields[1..], fuel);
    assert BuildFields(pkg, local, fields, fuel) == Success([Field(d.name, d.typ, d, true, [])] + rest.value);
  }
}
