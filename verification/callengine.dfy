/** The call engine of env/call.go: the method path, reading one line per
    scalar field, converting each line to its declared protobuf kind and
    assigning it into a dynamic message, and the early returns of `Call`. */
module CallEngine {
  import opened Wrappers
  import opened Errors
  import opened Strings
  import Strconv
  import opened Schema
  import opened Entity
  import Navigator

  // ---------------------------------------------------------------------
  // The method path.

  /** `genEndpoint`: "/" + package + "." + service + "/" + rpc. */
  function GenEndpoint(e: Navigator.Env, rpcName: string): (r: string)
    ensures |r| > |rpcName| && r[0] == '/' && r[|r| - |rpcName|..] == rpcName
    ensures r[|r| - |rpcName| - 1] == '/'
    ensures Navigator.HasCurrentPackage(e) && Navigator.HasCurrentService(e) ==>
      r == "/" + Navigator.GetDSN(e) + "/" + rpcName
  {
    "/" + e.currentPackage + "." + e.currentService + "/" + rpcName
  }

  /** The text after the last '/' of a path. */
  function AfterLastSlash(s: string): (r: string)
    ensures |r| <= |s| && r == s[|s| - |r|..] && '/' !in r
    ensures |r| < |s| ==> s[|s| - |r| - 1] == '/'
  {
    if |s| == 0 then ""
    else if s[|s| - 1] == '/' then ""
    else AfterLastSlash(s[..|s| - 1]) + [s[|s| - 1]]
  }

  /** The RPC name is recovered from the path whenever it has no '/'. */
  lemma EndpointNamesRpc(e: Navigator.Env, rpcName: string)
    requires '/' !in rpcName
    ensures AfterLastSlash(GenEndpoint(e, rpcName)) == rpcName
  {
  }

  // ---------------------------------------------------------------------
  // Reading the inputs.

  /** What one `liner.Prompt` call yields: a line, end of input, or another
      error. */
  datatype PromptResult = Line(text: string) | Eof | PromptError(message: string)

  /** The next prompt result of the input stream; an exhausted stream keeps
      answering end of input. */
  function NextPrompt(lines: seq<PromptResult>): (PromptResult, seq<PromptResult>) {
    if |lines| == 0 then (Eof, []) else (lines[0], lines[1..])
  }

  /** A slot of `inputFields`: `Nil` where the slice element is still nil,
      otherwise the field's name and descriptor, and either the line read
      for it or the slots of its message type. */
  datatype InputField =
    | Nil
    | InputField(name: string, desc: FieldDesc, isPrimitive: bool, pVal: Option<string>, mVal: seq<InputField>)

  datatype Inputs = Inputs(slots: seq<InputField>, rest: seq<PromptResult>)

  /** `n` nil slots. */
  function Nils(n: nat): (r: seq<InputField>)
    ensures |r| == n && forall i :: 0 <= i < n ==> r[i].Nil?
  {
    seq(n, _ => Nil)
  }

  /** The shape of a level of slots after a read: slot i belongs to field i;
      message slots hold a nested level and no text; scalar slots are either
      primitive with their line, or the one slot where end of input was met,
      after which every slot is nil. */
  predicate WellRead(fields: seq<FieldDesc>, slots: seq<InputField>) {
    && |slots| == |fields|
    && (forall i :: 0 <= i < |slots| && !slots[i].Nil? ==>
          slots[i].name == fields[i].name && slots[i].desc == fields[i])
    && (forall i :: 0 <= i < |slots| && !slots[i].Nil? && slots[i].isPrimitive ==>
          !IsMessageType(fields[i].typ) && slots[i].pVal.Some? && slots[i].mVal == [])
    && (forall i :: 0 <= i < |slots| && !slots[i].Nil? && !slots[i].isPrimitive ==> slots[i].pVal.None?)
    && (forall i :: 0 <= i < |slots| && !slots[i].Nil? && !slots[i].isPrimitive && !IsMessageType(fields[i].typ) ==>
          slots[i].mVal == [] && forall j :: i < j < |slots| ==> slots[j].Nil?)
    && (forall i :: 0 < i < |slots| && slots[i].Nil? ==>
          slots[i - 1].Nil? || (!slots[i - 1].isPrimitive && !IsMessageType(fields[i - 1].typ)))
    && (|slots| > 0 ==> !slots[0].Nil?)
  }

  /** A slot fit to stand first at a level of `fields`. */
  predicate HeadSlot(d: FieldDesc, slot: InputField) {
    && !slot.Nil? && slot.name == d.name && slot.desc == d
    && (slot.isPrimitive ==> !IsMessageType(d.typ) && slot.pVal.Some? && slot.mVal == [])
    && (!slot.isPrimitive ==> slot.pVal.None? && IsMessageType(d.typ))
  }

  lemma ConsWellRead(fields: seq<FieldDesc>, slot: InputField, rest: seq<InputField>)
    requires |fields| > 0 && HeadSlot(fields[0], slot) && WellRead(fields[1..], rest)
    ensures WellRead(fields, [slot] + rest)
  {
    var slots := [slot] + rest;
    assert forall i :: 1 <= i < |fields| ==> fields[i] == fields[1..][i - 1] && slots[i] == rest[i - 1];
  }

  lemma EofWellRead(fields: seq<FieldDesc>, slot: InputField)
    requires |fields| > 0 && !IsMessageType(fields[0].typ)
    requires slot == InputField(fields[0].name, fields[0], false, None, [])
    ensures WellRead(fields, [slot] + Nils(|fields| - 1))
  {
    var slots := [slot] + Nils(|fields| - 1);
    assert slots[0] == slot;
    assert forall i :: 1 <= i < |slots| ==> slots[i] == Nils(|fields| - 1)[i - 1];
  }

  /** A suffix of a suffix of the input is a suffix of the input. */
  lemma SuffixOfSuffix(a: seq<PromptResult>, b: seq<PromptResult>, c: seq<PromptResult>)
    requires |b| <= |a| && b == a[|a| - |b|..]
    requires |c| <= |b| && c == b[|b| - |c|..]
    ensures |c| <= |a| && c == a[|a| - |c|..]
  {
  }

  /** `inputFields(fields)` with a depth budget: message-typed fields recurse
      without reading, each scalar field reads one line; end of input stops
      this level without error. The Go recursion has no cycle guard; where it
      would not return the budget runs out. A message field whose type the
      universe lacks is reported as a panic: linked descriptors always carry
      their message type, so the Go code never meets that case. */
  function InputFields(u: Universe, fields: seq<FieldDesc>, lines: seq<PromptResult>, fuel: nat)
    : (r: Result<Inputs, Error>)
    ensures r.Success? ==> |r.value.slots| == |fields|
    ensures fuel == 0 ==> r == Failure(DepthExceeded)
    decreases fuel, 0
  {
    if fuel == 0 then Failure(DepthExceeded) else ReadFields(u, fields, lines, fuel - 1)
  }

  function ReadFields(u: Universe, fields: seq<FieldDesc>, lines: seq<PromptResult>, fuel: nat)
    : (r: Result<Inputs, Error>)
    ensures r.Success? ==> |r.value.slots| == |fields|
    decreases fuel, |fields|
  {
    if |fields| == 0 then Success(Inputs([], lines))
    else
      var d := fields[0];
      var slot := InputField(d.name, d, false, None, []);
      if IsMessageType(d.typ) then
        if d.messageType.None? || d.messageType.value.fqn !in u then Failure(Panic("nil message type"))
        else
          var sub := InputFields(u, u[d.messageType.value.fqn].fields, lines, fuel);
          if sub.Failure? then Failure(Wrapped(sub.error, "failed to read inputs"))
          else
            var rest :- ReadFields(u, fields[1..], sub.value.rest, fuel);
            Success(Inputs([slot.(mVal := sub.value.slots)] + rest.slots, rest.rest))
      else
        var (p, after) := NextPrompt(lines);
        match p
        case Eof =>
          Success(Inputs([slot] + Nils(|fields| - 1), after))
        case PromptError(m) => Failure(Text(m))
        case Line(t) =>
          var rest :- ReadFields(u, fields[1..], after, fuel);
          Success(Inputs([slot.(isPrimitive := true, pVal := Some(t))] + rest.slots, rest.rest))
  }

  /** Every slot `inputFields` returns has the shape of WellRead: the slots
      line up with the fields, a line fills only a scalar field, and after
      end of input the level is nil. */
  lemma InputFieldsWellRead(u: Universe, fields: seq<FieldDesc>, lines: seq<PromptResult>, fuel: nat)
    requires InputFields(u, fields, lines, fuel).Success?
    ensures WellRead(fields, InputFields(u, fields, lines, fuel).value.slots)
  {
    ReadFieldsWellRead(u, fields, lines, fuel - 1);
  }

  lemma {:induction false} ReadFieldsWellRead(u: Universe, fields: seq<FieldDesc>, lines: seq<PromptResult>, fuel: nat)
    requires ReadFields(u, fields, lines, fuel).Success?
    ensures WellRead(fields, ReadFields(u, fields, lines, fuel).value.slots)
    decreases |fields|
  {
    if |fields| > 0 {
      var d := fields[0];
      var slot := InputField(d.name, d, false, None, []);
      var r := ReadFields(u, fields, lines, fuel).value;
      if IsMessageType(d.typ) {
        var sub := InputFields(u, u[d.messageType.value.fqn].fields, lines, fuel).value;
        var rest := ReadFields(u, fields[1..], sub.rest, fuel).value;
        ReadFieldsWellRead(u, fields[1..], sub.rest, fuel);
        assert r.slots == [slot.(mVal := sub.slots)] + rest.slots;
        ConsWellRead(fields, slot.(mVal := sub.slots), rest.slots);
      } else if |lines| == 0 || lines[0] == Eof {
        assert r.slots == [slot] + Nils(|fields| - 1);
        EofWellRead(fields, slot);
      } else {
        var t := lines[0].text;
        var rest := ReadFields(u, fields[1..], lines[1..], fuel).value;
        ReadFieldsWellRead(u, fields[1..], lines[1..], fuel);
        assert r.slots == [slot.(isPrimitive := true, pVal := Some(t))] + rest.slots;
        ConsWellRead(fields, slot.(isPrimitive := true, pVal := Some(t)), rest.slots);
      }
    }
  }

  /** Reading only ever consumes input: what is left is a suffix of the
      input given, at every depth. */
  lemma {:induction false} InputFieldsSuffix(u: Universe, fields: seq<FieldDesc>, lines: seq<PromptResult>, fuel: nat)
    requires InputFields(u, fields, lines, fuel).Success?
    ensures var rest := InputFields(u, fields, lines, fuel).value.rest;
      |rest| <= |lines| && rest == lines[|lines| - |rest|..]
    decreases fuel, 0
  {
    ReadFieldsSuffix(u, fields, lines, fuel - 1);
  }

  lemma {:induction false} ReadFieldsSuffix(u: Universe, fields: seq<FieldDesc>, lines: seq<PromptResult>, fuel: nat)
    requires ReadFields(u, fields, lines, fuel).Success?
    ensures var rest := ReadFields(u, fields, lines, fuel).value.rest;
      |rest| <= |lines| && rest == lines[|lines| - |rest|..]
    decreases fuel, |fields|
  {
    if |fields| > 0 {
      var d := fields[0];
      var r := ReadFields(u, fields, lines, fuel).value;
      if IsMessageType(d.typ) {
        var sub := InputFields(u, u[d.messageType.value.fqn].fields, lines, fuel).value;
        var rest := ReadFields(u, fields[1..], sub.rest, fuel).value;
        InputFieldsSuffix(u, u[d.messageType.value.fqn].fields, lines, fuel);
        ReadFieldsSuffix(u, fields[1..], sub.rest, fuel);
        assert r.rest == rest.rest;
        SuffixOfSuffix(lines, sub.rest, rest.rest);
      } else if |lines| == 0 || lines[0] == Eof {
        assert r.rest == NextPrompt(lines).1;
      } else {
        var rest := ReadFields(u, fields[1..], lines[1..], fuel).value;
        ReadFieldsSuffix(u, fields[1..], lines[1..], fuel);
        assert r.rest == rest.rest;
        SuffixOfSuffix(lines, lines[1..], rest.rest);
      }
    }
  }

  /** More budget changes nothing once reading has finished: the budget
      only ever shows up as a failure caused by DepthExceeded, however
      deeply wrapped. */
  lemma {:induction false} InputFieldsFuelMonotone(u: Universe, fields: seq<FieldDesc>, lines: seq<PromptResult>, fuel: nat)
    requires InputFields(u, fields, lines, fuel).Success? || Cause(InputFields(u, fields, lines, fuel).error) != DepthExceeded
    ensures InputFields(u, fields, lines, fuel + 1) == InputFields(u, fields, lines, fuel)
    decreases fuel, 0
  {
    assert fuel > 0;
    ReadFieldsFuelMonotone(u, fields, lines, fuel - 1);
  }

  lemma {:induction false} ReadFieldsFuelMonotone(u: Universe, fields: seq<FieldDesc>, lines: seq<PromptResult>, fuel: nat)
    requires ReadFields(u, fields, lines, fuel).Success? || Cause(ReadFields(u, fields, lines, fuel).error) != DepthExceeded
    ensures ReadFields(u, fields, lines, fuel + 1) == ReadFields(u, fields, lines, fuel)
    decreases fuel, |fields|
  {
    if |fields| > 0 {
      var d := fields[0];
      if IsMessageType(d.typ) {
        if d.messageType.Some? && d.messageType.value.fqn in u {
          var sub := InputFields(u, u[d.messageType.value.fqn].fields, lines, fuel);
          InputFieldsFuelMonotone(u, u[d.messageType.value.fqn].fields, lines, fuel);
          if sub.Success? {
            ReadFieldsFuelMonotone(u, fields[1..], sub.value.rest, fuel);
          }
        }
      } else if |lines| > 0 && lines[0].Line? {
        ReadFieldsFuelMonotone(u, fields[1..], lines[1..], fuel);
      }
    }
  }

  /** The lines a level of slots holds, depth first: each scalar slot's
      line in field order, with a nested level's lines in place of its
      message field. */
  function Texts(slots: seq<InputField>): seq<string>
    decreases slots
  {
    if |slots| == 0 then [] else SlotTexts(slots[0]) + Texts(slots[1..])
  }

  function SlotTexts(f: InputField): seq<string>
    decreases f
  {
    if f.Nil? then []
    else if f.isPrimitive then (if f.pVal.Some? then [f.pVal.value] else [])
    else Texts(f.mVal)
  }

  /** The texts of the lines among some prompt results, in order. */
  function LineTexts(ps: seq<PromptResult>): seq<string> {
    if |ps| == 0 then [] else (if ps[0].Line? then [ps[0].text] else []) + LineTexts(ps[1..])
  }

  /** No prompt among `ps` failed. */
  predicate NoPromptError(ps: seq<PromptResult>) {
    forall i :: 0 <= i < |ps| ==> !ps[i].PromptError?
  }

  lemma {:induction false} LineTextsAppend(a: seq<PromptResult>, b: seq<PromptResult>)
    ensures LineTexts(a + b) == LineTexts(a) + LineTexts(b)
    decreases |a|
  {
    if |a| > 0 {
      assert (a + b)[0] == a[0] && (a + b)[1..] == a[1..] + b;
      LineTextsAppend(a[1..], b);
    } else {
      assert a + b == b;
    }
  }

  lemma {:induction false} TextsAllNil(slots: seq<InputField>)
    requires forall i :: 0 <= i < |slots| ==> slots[i].Nil?
    ensures Texts(slots) == []
    decreases |slots|
  {
    if |slots| > 0 {
      TextsAllNil(slots[1..]);
    }
  }

  lemma TextsCons(slot: InputField, rest: seq<InputField>)
    ensures Texts([slot] + rest) == SlotTexts(slot) + Texts(rest)
  {
    assert ([slot] + rest)[0] == slot && ([slot] + rest)[1..] == rest;
  }

  /** The input consumed up to `rest` is what was consumed up to `mid`,
      followed by what was consumed from `mid` on. */
  lemma ConsumedSplit(lines: seq<PromptResult>, mid: seq<PromptResult>, rest: seq<PromptResult>)
    requires |mid| <= |lines| && mid == lines[|lines| - |mid|..]
    requires |rest| <= |mid| && rest == mid[|mid| - |rest|..]
    ensures lines[..|lines| - |rest|] == lines[..|lines| - |mid|] + mid[..|mid| - |rest|]
    ensures LineTexts(lines[..|lines| - |rest|]) == LineTexts(lines[..|lines| - |mid|]) + LineTexts(mid[..|mid| - |rest|])
    ensures NoPromptError(lines[..|lines| - |rest|]) <==>
      NoPromptError(lines[..|lines| - |mid|]) && NoPromptError(mid[..|mid| - |rest|])
  {
    var a := |lines| - |mid|;
    var b := |mid| - |rest|;
    assert lines[..a + b] == lines[..a] + lines[a..a + b];
    assert lines[a..a + b] == mid[..b];
    LineTextsAppend(lines[..a], mid[..b]);
    var c := lines[..a] + mid[..b];
    assert forall i :: 0 <= i < |c| ==> c[i] == if i < a then lines[..a][i] else mid[..b][i - a];
  }

  /** What a read leaves: an unread suffix of the input, and a consumed
      prefix whose lines are exactly the texts of the slots, depth first,
      with no prompt error among them. */
  predicate ReadsAs(lines: seq<PromptResult>, r: Inputs) {
    && |r.rest| <= |lines| && r.rest == lines[|lines| - |r.rest|..]
    && Texts(r.slots) == LineTexts(lines[..|lines| - |r.rest|])
    && NoPromptError(lines[..|lines| - |r.rest|])
  }

  /** A message field's slot holding the nested level, in front of the
      rest of the level, which reads on where the nested level stopped. */
  lemma MessageStepReads(lines: seq<PromptResult>, sub: Inputs, rest: Inputs, slot: InputField)
    requires ReadsAs(lines, sub) && ReadsAs(sub.rest, rest)
    requires !slot.Nil? && !slot.isPrimitive
    ensures ReadsAs(lines, Inputs([slot.(mVal := sub.slots)] + rest.slots, rest.rest))
  {
    TextsCons(slot.(mVal := sub.slots), rest.slots);
    ConsumedSplit(lines, sub.rest, rest.rest);
  }

  /** A scalar slot holding the first line, in front of the rest of the
      level, which reads on from the next line. */
  lemma LineStepReads(lines: seq<PromptResult>, rest: Inputs, slot: InputField)
    requires |lines| > 0 && lines[0].Line? && ReadsAs(lines[1..], rest)
    requires !slot.Nil? && slot.isPrimitive && slot.pVal == Some(lines[0].text)
    ensures ReadsAs(lines, Inputs([slot] + rest.slots, rest.rest))
  {
    TextsCons(slot, rest.slots);
    ConsumedSplit(lines, lines[1..], rest.rest);
    assert lines[..1] == [lines[0]];
    assert LineTexts([lines[0]]) == [lines[0].text] + LineTexts([]);
  }

  /** An unread scalar slot at end of input, followed by nil slots. */
  lemma EofStepReads(lines: seq<PromptResult>, slot: InputField, n: nat)
    requires |lines| == 0 || lines[0] == Eof
    requires !slot.Nil? && !slot.isPrimitive && slot.mVal == []
    ensures ReadsAs(lines, Inputs([slot] + Nils(n), NextPrompt(lines).1))
  {
    TextsCons(slot, Nils(n));
    TextsAllNil(Nils(n));
    assert SlotTexts(slot) == Texts([]) == [];
    if |lines| > 0 {
      assert lines[..|lines| - |lines[1..]|] == [Eof];
      assert LineTexts([Eof]) == [] + LineTexts([]);
    }
  }

  /** Reading threads one input stream through every depth: the lines
      consumed by a successful read are exactly the texts of its scalar
      slots, depth first in field order, with no prompt error among them;
      a level after a message field reads on where the nested level
      stopped. */
  lemma {:induction false} InputFieldsTexts(u: Universe, fields: seq<FieldDesc>, lines: seq<PromptResult>, fuel: nat)
    requires InputFields(u, fields, lines, fuel).Success?
    ensures ReadsAs(lines, InputFields(u, fields, lines, fuel).value)
    decreases fuel, 0
  {
    ReadFieldsTexts(u, fields, lines, fuel - 1);
  }

  lemma {:induction false} ReadFieldsTexts(u: Universe, fields: seq<FieldDesc>, lines: seq<PromptResult>, fuel: nat)
    requires ReadFields(u, fields, lines, fuel).Success?
    ensures ReadsAs(lines, ReadFields(u, fields, lines, fuel).value)
    decreases fuel, |fields|
  {
    var r := ReadFields(u, fields, lines, fuel).value;
    if |fields| == 0 {
      assert r.rest == lines && lines[..0] == [];
    } else {
      var d := fields[0];
      var slot := InputField(d.name, d, false, None, []);
      if IsMessageType(d.typ) {
        var sub := InputFields(u, u[d.messageType.value.fqn].fields, lines, fuel).value;
        var rest := ReadFields(u, fields[1..], sub.rest, fuel).value;
        InputFieldsTexts(u, u[d.messageType.value.fqn].fields, lines, fuel);
        ReadFieldsTexts(u, fields[1..], sub.rest, fuel);
        assert r == Inputs([slot.(mVal := sub.slots)] + rest.slots, rest.rest);
        MessageStepReads(lines, sub, rest, slot);
      } else if |lines| == 0 || lines[0] == Eof {
        assert r == Inputs([slot] + Nils(|fields| - 1), NextPrompt(lines).1);
        EofStepReads(lines, slot, |fields| - 1);
      } else {
        var t := lines[0].text;
        var rest := ReadFields(u, fields[1..], lines[1..], fuel).value;
        ReadFieldsTexts(u, fields[1..], lines[1..], fuel);
        assert r == Inputs([slot.(isPrimitive := true, pVal := Some(t))] + rest.slots, rest.rest);
        LineStepReads(lines, rest, slot.(isPrimitive := true, pVal := Some(t)));
      }
    }
  }

  /** No field of the level is message-typed. */
  predicate Flat(fields: seq<FieldDesc>) {
    forall i :: 0 <= i < |fields| ==> !IsMessageType(fields[i].typ)
  }

  /** One scalar field at end of input: the field's slot is left unread
      and the rest of the level stays nil. */
  lemma ReadEofStep(u: Universe, fields: seq<FieldDesc>, lines: seq<PromptResult>, fuel: nat)
    requires |fields| > 0 && !IsMessageType(fields[0].typ) && |lines| > 0 && lines[0] == Eof
    ensures ReadFields(u, fields, lines, fuel)
      == Success(Inputs([InputField(fields[0].name, fields[0], false, None, [])] + Nils(|fields| - 1), lines[1..]))
  {
    assert NextPrompt(lines) == (Eof, lines[1..]);
  }

  /** One scalar field on a line: the line fills its slot and the rest of
      the level reads on from the next line. */
  lemma ReadLineStep(u: Universe, fields: seq<FieldDesc>, lines: seq<PromptResult>, fuel: nat)
    requires |fields| > 0 && !IsMessageType(fields[0].typ) && |lines| > 0 && lines[0].Line?
    requires ReadFields(u, fields[1..], lines[1..], fuel).Success?
    ensures var rest := ReadFields(u, fields[1..], lines[1..], fuel).value;
      ReadFields(u, fields, lines, fuel)
      == Success(Inputs([InputField(fields[0].name, fields[0], true, Some(lines[0].text), [])] + rest.slots, rest.rest))
  {
    assert NextPrompt(lines) == (Line(lines[0].text), lines[1..]);
  }

  /** What FlatReadConsumesLines states about a level after its first k
      lines, for given fields, input and result. */
  predicate ConsumedLines(fields: seq<FieldDesc>, lines: seq<PromptResult>, r: Inputs, k: nat)
    requires k <= |fields| && k <= |lines| && |r.slots| == |fields|
    requires forall i :: 0 <= i < k ==> lines[i].Line?
    requires k < |fields| ==> k < |lines|
  {
    && (forall i :: 0 <= i < k ==> r.slots[i] == InputField(fields[i].name, fields[i], true, Some(lines[i].text), []))
    && (k < |fields| ==> r.slots[k] == InputField(fields[k].name, fields[k], false, None, []))
    && (forall i :: k < i < |fields| ==> r.slots[i] == Nil)
    && r.rest == (if k < |fields| then lines[k + 1..] else lines[k..])
  }

  /** The step of FlatReadConsumesLines: one line in front of a level that
      consumed its first k - 1 lines makes a level that consumed k. */
  lemma ConsumedLinesCons(fields: seq<FieldDesc>, lines: seq<PromptResult>, rest: Inputs, k: nat)
    requires 0 < k <= |fields| && k <= |lines| && |rest.slots| == |fields| - 1
    requires forall i :: 0 <= i < k ==> lines[i].Line?
    requires k < |fields| ==> k < |lines|
    requires ConsumedLines(fields[1..], lines[1..], rest, k - 1)
    ensures var head := InputField(fields[0].name, fields[0], true, Some(lines[0].text), []);
      ConsumedLines(fields, lines, Inputs([head] + rest.slots, rest.rest), k)
  {
    var head := InputField(fields[0].name, fields[0], true, Some(lines[0].text), []);
    var r := Inputs([head] + rest.slots, rest.rest);
    forall i | 0 < i < k
      ensures r.slots[i] == InputField(fields[i].name, fields[i], true, Some(lines[i].text), [])
    {
      assert r.slots[i] == rest.slots[i - 1];
      assert fields[i] == fields[1..][i - 1] && lines[i] == lines[1..][i - 1];
    }
    if k < |fields| {
      assert r.slots[k] == rest.slots[k - 1] && fields[k] == fields[1..][k - 1];
      assert lines[1..][k..] == lines[k + 1..];
    } else {
      assert lines[1..][k - 1..] == lines[k..];
    }
    forall i | k < i < |fields| ensures r.slots[i] == Nil {
      assert r.slots[i] == rest.slots[i - 1];
    }
  }

  /** On a level without message fields, the first k lines fill the first k
      slots in order, one line each; end of input at line k leaves slot k
      unread and the rest nil; with enough lines every slot is filled. */
  lemma {:induction false} FlatReadConsumesLines(u: Universe, fields: seq<FieldDesc>, lines: seq<PromptResult>, fuel: nat, k: nat)
    requires Flat(fields) && k <= |fields| && k <= |lines|
    requires forall i :: 0 <= i < k ==> lines[i].Line?
    requires k < |fields| ==> k < |lines| && lines[k] == Eof
    ensures ReadFields(u, fields, lines, fuel).Success?
    ensures ConsumedLines(fields, lines, ReadFields(u, fields, lines, fuel).value, k)
    decreases k
  {
    if |fields| > 0 {
      if k == 0 {
        ReadEofStep(u, fields, lines, fuel);
      } else {
        assert Flat(fields[1..]) by {
          forall i | 0 <= i < |fields[1..]| ensures !IsMessageType(fields[1..][i].typ) {
            assert fields[1..][i] == fields[i + 1];
          }
        }
        FlatReadConsumesLines(u, fields[1..], lines[1..], fuel, k - 1);
        ReadLineStep(u, fields, lines, fuel);
        ConsumedLinesCons(fields, lines, ReadFields(u, fields[1..], lines[1..], fuel).value, k);
      }
    }
  }

  /** The byte length `maxLen` measures of a field's prompt label. */
  function Label(f: FieldDesc): string {
    f.name + " (" + TypeName(f.typ) + ") | "
  }

  /** `maxLen`: the widest label, in bytes, over the scalar fields (0 when
      there are none). */
  method MaxLen(fields: seq<FieldDesc>) returns (max: nat)
    ensures forall i :: 0 <= i < |fields| && !IsMessageType(fields[i].typ) ==> ByteLen(Label(fields[i])) <= max
    ensures max == 0 || exists i :: 0 <= i < |fields| && !IsMessageType(fields[i].typ) && ByteLen(Label(fields[i])) == max
  {
    max := 0;
    ghost var widest := -1;
    var i := 0;
    while i < |fields|
      invariant 0 <= i <= |fields|
      invariant forall j :: 0 <= j < i && !IsMessageType(fields[j].typ) ==> ByteLen(Label(fields[j])) <= max
      invariant -1 <= widest < i
      invariant widest == -1 ==> max == 0
      invariant widest >= 0 ==> !IsMessageType(fields[widest].typ) && ByteLen(Label(fields[widest])) == max
    {
      if !IsMessageType(fields[i].typ) {
        var l := ByteLen(Label(fields[i]));
        if l > max {
          max := l;
          widest := i;
        }
      }
      i := i + 1;
    }
  }

  /** The prompt text: the label right-aligned to `width` with `%*s`, which
      pads by characters (runes), while `maxLen` measured bytes. */
  function PromptText(f: FieldDesc, width: nat): (r: string)
    ensures |r| == if width > |Label(f)| then width else |Label(f)|
    ensures r[|r| - |Label(f)|..] == Label(f)
    ensures forall i :: 0 <= i < |r| - |Label(f)| ==> r[i] == ' '
  {
    var l := Label(f);
    Repeat(' ', if width > |l| then width - |l| else 0) + l
  }

  /** A label of ASCII text padded to a width at least its byte length
      fills exactly that width, so ASCII prompts padded to `maxLen` line up;
      a label with wider characters measures more bytes than runes and is
      padded short of the width. */
  lemma PromptAligned(f: FieldDesc, width: nat)
    requires ByteLen(Label(f)) <= width
    ensures |PromptText(f, width)| <= width
    ensures (forall i :: 0 <= i < |Label(f)| ==> (Label(f)[i] as int) < 0x80) ==> |PromptText(f, width)| == width
  {
    if forall i :: 0 <= i < |Label(f)| ==> (Label(f)[i] as int) < 0x80 {
      Utf8Ascii(Label(f));
    }
  }

  // ---------------------------------------------------------------------
  // Converting and assigning the inputs.

  /** A field value of a dynamic message, tagged by the Go type it is
      passed as. */
  datatype Value =
    | Int32V(i: int)
    | Int64V(i: int)
    | Uint32V(n: nat)
    | Uint64V(n: nat)
    | Float32V(f: real)
    | Float64V(f: real)
    | BoolV(b: bool)
    | StringV(s: string)
    | BytesV(bytes: seq<byte>)
    | MessageV(m: DynMessage)

  /** A dynamic message: its type and the values set so far, by field name. */
  datatype DynMessage = DynMessage(typeFqn: string, values: map<string, Value>)

  /** `dynamic.NewMessage(md)`: an empty message of the type; a nil type is
      an empty name. */
  function NewMessage(md: Option<TypeRef>): (m: DynMessage)
    ensures m.values == map[]
  {
    DynMessage(if md.Some? then md.value.fqn else "", map[])
  }

  /** The Go type the dynamic-message library accepts for each kind: the
      kind's own Go type. */
  predicate GoTypeMatches(t: FieldType, v: Value) {
    match t
    case TYPE_INT32 | TYPE_SINT32 | TYPE_SFIXED32 | TYPE_ENUM => v.Int32V?
    case TYPE_INT64 | TYPE_SINT64 | TYPE_SFIXED64 => v.Int64V?
    case TYPE_UINT32 | TYPE_FIXED32 => v.Uint32V?
    case TYPE_UINT64 | TYPE_FIXED64 => v.Uint64V?
    case TYPE_FLOAT => v.Float32V?
    case TYPE_DOUBLE => v.Float64V?
    case TYPE_BOOL => v.BoolV?
    case TYPE_STRING => v.StringV?
    case TYPE_BYTES => v.BytesV?
    case TYPE_MESSAGE | TYPE_GROUP => v.MessageV?
  }

  /** Go's `int32(v)` of a value below 2^32: the two's-complement reading
      of its low 32 bits. */
  function WrapInt32(v: nat): (r: int)
    requires v < 0x1_0000_0000
    ensures -0x8000_0000 <= r < 0x8000_0000
    ensures r % 0x1_0000_0000 == v
  {
    if v >= 0x8000_0000 then v - 0x1_0000_0000 else v
  }

  /** The float parser (`strconv.ParseFloat(s, bits)`, narrowed to float32
      for bits = 32), which the model takes as given. */
  type FloatParser = (string, nat) -> Result<real, Error>

  /** The conversion `setInput` applies to the text of a scalar of kind `t`,
      branch by branch. */
  function Convert(t: FieldType, text: string, parseFloat: FloatParser): (r: Result<Value, Error>)
    ensures t in {TYPE_GROUP, TYPE_MESSAGE, TYPE_ENUM} ==> r == Failure(Text("invalid type: " + Strconv.FormatUint(Number(t))))
    ensures t in {TYPE_STRING, TYPE_BYTES} ==> r.Success?
  {
    match t
    case TYPE_DOUBLE =>
      var v :- parseFloat(text, 64); Success(Float64V(v))
    case TYPE_FLOAT =>
      var v :- parseFloat(text, 32); Success(Float32V(v))
    case TYPE_INT64 | TYPE_SINT64 =>
      var v :- Strconv.ParseInt(text, Strconv.W64); Success(Int64V(v))
    case TYPE_UINT64 | TYPE_FIXED64 =>
      var v :- Strconv.ParseUint(text, Strconv.W64); Success(Uint64V(v))
    case TYPE_INT32 | TYPE_SINT32 =>
      var v :- Strconv.ParseInt(text, Strconv.W32); Success(Int32V(v))
    case TYPE_UINT32 | TYPE_FIXED32 =>
      var v :- Strconv.ParseUint(text, Strconv.W32); Success(Uint32V(v))
    case TYPE_BOOL =>
      var v :- Strconv.ParseBool(text); Success(BoolV(v))
    case TYPE_STRING => Success(StringV(text))
    case TYPE_BYTES => Success(BytesV(Utf8(text)))
    case TYPE_SFIXED64 =>
      var v :- Strconv.ParseUint(text, Strconv.W64); Success(Uint64V(v))
    case TYPE_SFIXED32 =>
      var v :- Strconv.ParseUint(text, Strconv.W32);
      Success(Int32V(WrapInt32(v)))
    case _ => Failure(Text("invalid type: " + Strconv.FormatUint(Number(t))))
  }

  /** The values the dynamic-message library stores into a field without
      complaint: a singular field takes a value of its kind's Go type. A
      repeated field is checked against its element type, and a line-built
      value is accepted there only for bytes (`[]byte` is itself a slice);
      the model refuses every value for a repeated field. */
  predicate Accepts(d: FieldDesc, v: Value) {
    !d.repeated && GoTypeMatches(d.typ, v)
  }

  /** The error `TrySetField` refuses a value with. */
  function Refusal(d: FieldDesc): Error {
    Text("bad input for field " + d.name)
  }

  /** The panic `SetField` raises where `TrySetField` would refuse. */
  const SetFieldPanic := Panic("SetField: value is not of the field's type")

  /** `TrySetField` of the dynamic-message library: a value the field
      accepts is stored under the field's name and nothing else changes;
      any other is refused with an error and the message is left as it was. */
  function TrySetField(m: DynMessage, d: FieldDesc, v: Value): (r: Result<DynMessage, Error>)
    ensures r.Success? <==> !d.repeated && GoTypeMatches(d.typ, v)
    ensures r.Failure? ==> r.error == Refusal(d)
    ensures r.Success? ==> r.value.typeFqn == m.typeFqn
    ensures r.Success? ==> r.value.values.Keys == m.values.Keys + {d.name}
    ensures r.Success? ==> r.value.values[d.name] == v
    ensures r.Success? ==> forall k :: k in m.values && k != d.name ==> r.value.values[k] == m.values[k]
  {
    if Accepts(d, v) then Success(m.(values := m.values[d.name := v]))
    else Failure(Refusal(d))
  }

  /** `SetField`: stores what `TrySetField` stores, and panics where it
      would refuse. */
  function SetField(m: DynMessage, d: FieldDesc, v: Value): (r: Result<DynMessage, Error>)
    ensures r.Success? <==> TrySetField(m, d, v).Success?
    ensures r.Success? ==> r == TrySetField(m, d, v)
    ensures r.Failure? ==> r.error == SetFieldPanic
  {
    match TrySetField(m, d, v)
    case Success(stored) => Success(stored)
    case Failure(_) => Failure(SetFieldPanic)
  }

  /** The value one slot offers its message: a nested message built from
      its own slots, or the converted text; `Nil` slots are the nil
      dereference the Go code panics on. */
  function SlotValue(f: InputField, parseFloat: FloatParser): (r: Result<Value, Error>)
    ensures f.Nil? ==> r.Failure? && r.error.Panic?
    ensures !f.Nil? && !f.isPrimitive ==>
      (r.Success? <==> SetInput(NewMessage(f.desc.messageType), f.mVal, parseFloat).Success?)
    ensures !f.Nil? && f.isPrimitive ==>
      (r.Success? <==> Convert(f.desc.typ, if f.pVal.Some? then f.pVal.value else "", parseFloat).Success?)
    decreases f, 0
  {
    if f.Nil? then Failure(Panic("nil pointer dereference"))
    else if !f.isPrimitive then
      var sub :- SetInput(NewMessage(f.desc.messageType), f.mVal, parseFloat);
      Success(MessageV(sub))
    else
      Convert(f.desc.typ, if f.pVal.Some? then f.pVal.value else "", parseFloat)
  }

  /** A slot whose value is built and then accepted by its field. */
  predicate Assigned(f: InputField, parseFloat: FloatParser)
    decreases f, 1
  {
    SlotValue(f, parseFloat).Success? && !f.Nil? && Accepts(f.desc, SlotValue(f, parseFloat).value)
  }

  /** The error a slot that is not assigned ends `setInput` with: its own
      error, or the refusal of the store. */
  function StepError(f: InputField, parseFloat: FloatParser): Error
    requires !Assigned(f, parseFloat)
    decreases f, 2
  {
    if SlotValue(f, parseFloat).Failure? then SlotValue(f, parseFloat).error
    else if f.isPrimitive then Refusal(f.desc)
    else SetFieldPanic
  }

  /** One iteration of the `setInput` loop: build the slot's value, then
      store it, with `TrySetField` for a scalar and `SetField` for a nested
      message. */
  function Assign(req: DynMessage, f: InputField, parseFloat: FloatParser): (r: Result<DynMessage, Error>)
    ensures r.Success? <==> Assigned(f, parseFloat)
    ensures r.Success? ==> r.value == req.(values := req.values[f.desc.name := SlotValue(f, parseFloat).value])
    ensures r.Failure? ==> r.error == StepError(f, parseFloat)
    decreases f, 3
  {
    var v :- SlotValue(f, parseFloat);
    if f.isPrimitive then TrySetField(req, f.desc, v) else SetField(req, f.desc, v)
  }

  /** Which slots can be assigned: a nil slot never; a nested message only
      into a singular message or group field, and only when its own slots
      can all be assigned; a line only into a singular field, when it
      converts and the converted value has the kind's Go type. */
  lemma AssignedExactly(f: InputField, parseFloat: FloatParser)
    ensures Assigned(f, parseFloat) <==>
      && !f.Nil? && !f.desc.repeated
      && (!f.isPrimitive ==>
            f.desc.typ in {TYPE_MESSAGE, TYPE_GROUP}
            && SetInput(NewMessage(f.desc.messageType), f.mVal, parseFloat).Success?)
      && (f.isPrimitive ==>
            var c := Convert(f.desc.typ, if f.pVal.Some? then f.pVal.value else "", parseFloat);
            c.Success? && f.desc.typ != TYPE_SFIXED64)
  {
    if !f.Nil? && f.isPrimitive {
      var c := Convert(f.desc.typ, if f.pVal.Some? then f.pVal.value else "", parseFloat);
      if c.Success? {
        ConvertTypeMatches(f.desc.typ, if f.pVal.Some? then f.pVal.value else "", parseFloat);
      }
    }
  }

  /** No later slot of the level is assigned under the name of slot `i`. */
  predicate LastOfName(slots: seq<InputField>, i: nat)
    requires i < |slots| && !slots[i].Nil?
  {
    forall j :: i < j < |slots| ==> slots[j].Nil? || slots[j].desc.name != slots[i].desc.name
  }

  /** No slot of the level is assigned under the name `k`. */
  predicate NotAssigned(slots: seq<InputField>, k: string) {
    forall j :: 0 <= j < |slots| ==> slots[j].Nil? || slots[j].desc.name != k
  }

  /** Slot k is the first of the level that is not assigned. */
  predicate FirstUnassigned(slots: seq<InputField>, k: nat, parseFloat: FloatParser) {
    && k < |slots| && !Assigned(slots[k], parseFloat)
    && forall j :: 0 <= j < k ==> Assigned(slots[j], parseFloat)
  }

  /** `setInput(req, fields)`: assigns the slots in order and stops at the
      first one that fails (SetInputFirstFailure). */
  function SetInput(req: DynMessage, slots: seq<InputField>, parseFloat: FloatParser): (r: Result<DynMessage, Error>)
    ensures r.Success? <==> forall i :: 0 <= i < |slots| ==> Assigned(slots[i], parseFloat)
    ensures r.Success? ==> r.value.typeFqn == req.typeFqn
    decreases slots
  {
    if |slots| == 0 then Success(req)
    else
      var next :- Assign(req, slots[0], parseFloat);
      var r := SetInput(next, slots[1..], parseFloat);
      assert forall i :: 1 <= i < |slots| ==> slots[i] == slots[1..][i - 1];
      r
  }

  /** A failed `setInput` ends with the error of its first slot that is not
      assigned, every slot before it having been assigned. */
  lemma {:induction false} SetInputFirstFailure(req: DynMessage, slots: seq<InputField>, parseFloat: FloatParser)
    requires SetInput(req, slots, parseFloat).Failure?
    ensures exists k: nat ::
      FirstUnassigned(slots, k, parseFloat) && SetInput(req, slots, parseFloat).error == StepError(slots[k], parseFloat)
    decreases |slots|
  {
    var next := Assign(req, slots[0], parseFloat);
    if next.Failure? {
      assert FirstUnassigned(slots, 0, parseFloat);
    } else {
      SetInputFirstFailure(next.value, slots[1..], parseFloat);
      var k: nat :| FirstUnassigned(slots[1..], k, parseFloat)
        && SetInput(next.value, slots[1..], parseFloat).error == StepError(slots[1..][k], parseFloat);
      assert forall i :: 1 <= i < |slots| ==> slots[i] == slots[1..][i - 1];
      assert FirstUnassigned(slots, k + 1, parseFloat);
    }
  }

  /** A step of a successful `setInput`: the first slot's value is set and
      the rest of the level is assigned into that message. */
  lemma SetInputStep(req: DynMessage, slots: seq<InputField>, parseFloat: FloatParser)
    requires |slots| > 0 && SetInput(req, slots, parseFloat).Success?
    ensures !slots[0].Nil? && Assigned(slots[0], parseFloat)
    ensures var next := req.(values := req.values[slots[0].desc.name := SlotValue(slots[0], parseFloat).value]);
      SetInput(next, slots[1..], parseFloat).Success? &&
      SetInput(req, slots, parseFloat) == SetInput(next, slots[1..], parseFloat)
    ensures forall i :: 1 <= i < |slots| ==> slots[i] == slots[1..][i - 1]
  {
  }

  /** A successful `setInput` sets exactly the names of its slots, on top of
      what the message already held. */
  lemma {:induction false} SetInputKeys(req: DynMessage, slots: seq<InputField>, parseFloat: FloatParser)
    requires SetInput(req, slots, parseFloat).Success?
    ensures forall i :: 0 <= i < |slots| ==> !slots[i].Nil?
    ensures SetInput(req, slots, parseFloat).value.values.Keys ==
      req.values.Keys + (set i | 0 <= i < |slots| :: slots[i].desc.name)
    decreases |slots|
  {
    if |slots| > 0 {
      SetInputStep(req, slots, parseFloat);
      var next := req.(values := req.values[slots[0].desc.name := SlotValue(slots[0], parseFloat).value]);
      SetInputKeys(next, slots[1..], parseFloat);
      NamesCons(slots);
    }
  }

  /** The field names of a level: the first slot's, then the rest's. */
  lemma NamesCons(slots: seq<InputField>)
    requires |slots| > 0 && forall i :: 0 <= i < |slots| ==> !slots[i].Nil?
    ensures (set i | 0 <= i < |slots| :: slots[i].desc.name) ==
      {slots[0].desc.name} + (set i | 0 <= i < |slots[1..]| :: slots[1..][i].desc.name)
  {
    assert forall i :: 1 <= i < |slots| ==> slots[i] == slots[1..][i - 1];
  }

  /** Each name ends up holding the value of the last slot of that name. */
  lemma {:induction false} SetInputLastWins(req: DynMessage, slots: seq<InputField>, parseFloat: FloatParser, i: nat)
    requires SetInput(req, slots, parseFloat).Success?
    requires i < |slots| && !slots[i].Nil? && LastOfName(slots, i)
    ensures Assigned(slots[i], parseFloat)
    ensures slots[i].desc.name in SetInput(req, slots, parseFloat).value.values
    ensures SetInput(req, slots, parseFloat).value.values[slots[i].desc.name] == SlotValue(slots[i], parseFloat).value
    decreases |slots|
  {
    SetInputStep(req, slots, parseFloat);
    var next := req.(values := req.values[slots[0].desc.name := SlotValue(slots[0], parseFloat).value]);
    if i > 0 {
      assert LastOfName(slots[1..], i - 1);
      SetInputLastWins(next, slots[1..], parseFloat, i - 1);
    } else {
      assert NotAssigned(slots[1..], slots[0].desc.name) by {
        forall j | 0 <= j < |slots[1..]|
          ensures slots[1..][j].Nil? || slots[1..][j].desc.name != slots[0].desc.name
        {
          assert slots[1..][j] == slots[j + 1];
        }
      }
      SetInputKeepsOthers(next, slots[1..], parseFloat, slots[0].desc.name);
    }
  }

  /** A name no slot carries keeps the value it had. */
  lemma {:induction false} SetInputKeepsOthers(req: DynMessage, slots: seq<InputField>, parseFloat: FloatParser, k: string)
    requires SetInput(req, slots, parseFloat).Success?
    requires k in req.values && NotAssigned(slots, k)
    ensures k in SetInput(req, slots, parseFloat).value.values
    ensures SetInput(req, slots, parseFloat).value.values[k] == req.values[k]
    decreases |slots|
  {
    if |slots| > 0 {
      SetInputStep(req, slots, parseFloat);
      var next := req.(values := req.values[slots[0].desc.name := SlotValue(slots[0], parseFloat).value]);
      assert slots[0].desc.name != k;
      assert NotAssigned(slots[1..], k) by {
        forall j | 0 <= j < |slots[1..]|
          ensures slots[1..][j].Nil? || slots[1..][j].desc.name != k
        {
          assert slots[1..][j] == slots[j + 1];
        }
      }
      SetInputKeepsOthers(next, slots[1..], parseFloat, k);
    }
  }


  // ---------------------------------------------------------------------
  // What a line is meant to denote, and how the conversion measures up.

  /** The kinds whose line is converted without a float parser: every
      integer kind, bool, string and bytes. */
  predicate TextKind(t: FieldType) {
    t !in {TYPE_DOUBLE, TYPE_FLOAT, TYPE_ENUM, TYPE_GROUP, TYPE_MESSAGE}
  }

  /** An optionally signed decimal inside the signed range of the width. */
  function SignedMeaning(text: string, w: Strconv.Width): (r: Option<int>)
    ensures r.Some? ==> Strconv.MinInt(w) <= r.value <= Strconv.MaxInt(w)
  {
    if Strconv.IsSignedDecimal(text) && Strconv.MinInt(w) <= Strconv.SignedValue(text) <= Strconv.MaxInt(w)
    then Some(Strconv.SignedValue(text)) else None
  }

  /** A run of digits inside the unsigned range of the width. */
  function UnsignedMeaning(text: string, w: Strconv.Width): (r: Option<nat>)
    ensures r.Some? ==> r.value <= Strconv.MaxUint(w)
  {
    if Strconv.IsUnsignedDecimal(text) && Strconv.DecimalValue(text) <= Strconv.MaxUint(w)
    then Some(Strconv.DecimalValue(text)) else None
  }

  /** One of Go's twelve boolean literals. */
  function BoolMeaning(text: string): Option<bool> {
    if text in {"1", "t", "T", "true", "TRUE", "True"} then Some(true)
    else if text in {"0", "f", "F", "false", "FALSE", "False"} then Some(false)
    else None
  }

  /** The value a line denotes for a field of kind `t`, by the protobuf
      meaning of the kind: signed kinds take an optionally signed decimal in
      their signed range, unsigned kinds a digit run in theirs, bool the
      boolean literals, string the text and bytes its UTF-8 encoding. None
      where the line denotes no value of the kind. */
  function Meaning(t: FieldType, text: string): Option<Value>
    requires TextKind(t)
  {
    match t
    case TYPE_INT32 | TYPE_SINT32 | TYPE_SFIXED32 =>
      if SignedMeaning(text, Strconv.W32).Some? then Some(Int32V(SignedMeaning(text, Strconv.W32).value)) else None
    case TYPE_INT64 | TYPE_SINT64 | TYPE_SFIXED64 =>
      if SignedMeaning(text, Strconv.W64).Some? then Some(Int64V(SignedMeaning(text, Strconv.W64).value)) else None
    case TYPE_UINT32 | TYPE_FIXED32 =>
      if UnsignedMeaning(text, Strconv.W32).Some? then Some(Uint32V(UnsignedMeaning(text, Strconv.W32).value)) else None
    case TYPE_UINT64 | TYPE_FIXED64 =>
      if UnsignedMeaning(text, Strconv.W64).Some? then Some(Uint64V(UnsignedMeaning(text, Strconv.W64).value)) else None
    case TYPE_BOOL =>
      if BoolMeaning(text).Some? then Some(BoolV(BoolMeaning(text).value)) else None
    case TYPE_STRING => Some(StringV(text))
    case TYPE_BYTES => Some(BytesV(Utf8(text)))
  }

  lemma SignedAgrees(text: string, w: Strconv.Width)
    ensures Strconv.ParseInt(text, w).Success? <==> SignedMeaning(text, w).Some?
    ensures Strconv.ParseInt(text, w).Success? ==> Strconv.ParseInt(text, w).value == SignedMeaning(text, w).value
  {
    Strconv.ParseIntAccepts(text, w);
  }

  lemma UnsignedAgrees(text: string, w: Strconv.Width)
    ensures Strconv.ParseUint(text, w).Success? <==> UnsignedMeaning(text, w).Some?
    ensures Strconv.ParseUint(text, w).Success? ==> Strconv.ParseUint(text, w).value == UnsignedMeaning(text, w).value
  {
    Strconv.ParseUintAccepts(text, w);
  }

  /** Outside the two sfixed kinds, the conversion accepts exactly the lines
      that denote a value of the kind, and yields that value. */
  lemma ConvertAgrees(t: FieldType, text: string, parseFloat: FloatParser)
    requires TextKind(t) && t !in {TYPE_SFIXED32, TYPE_SFIXED64}
    ensures Convert(t, text, parseFloat).Success? <==> Meaning(t, text).Some?
    ensures Convert(t, text, parseFloat).Success? ==> Convert(t, text, parseFloat).value == Meaning(t, text).value
  {
    match t
    case TYPE_INT32 | TYPE_SINT32 => SignedAgrees(text, Strconv.W32);
    case TYPE_INT64 | TYPE_SINT64 => SignedAgrees(text, Strconv.W64);
    case TYPE_UINT32 | TYPE_FIXED32 => UnsignedAgrees(text, Strconv.W32);
    case TYPE_UINT64 | TYPE_FIXED64 => UnsignedAgrees(text, Strconv.W64);
    case TYPE_BOOL =>
      if BoolMeaning(text).None? {
        Strconv.ParseBoolRejects(text);
      }
    case TYPE_STRING =>
    case TYPE_BYTES =>
  }

  /** Every converted value except an sfixed64 one has the Go type its kind
      takes, so only sfixed64 lines reach `TrySetField` with the wrong type. */
  lemma ConvertTypeMatches(t: FieldType, text: string, parseFloat: FloatParser)
    requires Convert(t, text, parseFloat).Success?
    ensures GoTypeMatches(t, Convert(t, text, parseFloat).value) <==> t != TYPE_SFIXED64
  {
  }

  /** As written, an sfixed32 line is read as an unsigned 32-bit decimal and
      then reinterpreted as `int32`. */
  lemma Sfixed32AsWritten(text: string, parseFloat: FloatParser)
    ensures Convert(TYPE_SFIXED32, text, parseFloat).Success? <==> UnsignedMeaning(text, Strconv.W32).Some?
    ensures Convert(TYPE_SFIXED32, text, parseFloat).Success? ==>
      UnsignedMeaning(text, Strconv.W32).value < 0x1_0000_0000 &&
      Convert(TYPE_SFIXED32, text, parseFloat).value == Int32V(WrapInt32(UnsignedMeaning(text, Strconv.W32).value))
  {
    UnsignedAgrees(text, Strconv.W32);
  }

  /** The value of the first five digits of 2^32 - 1, digit by digit. */
  lemma MaxUint32Head()
    ensures Strconv.AllDigits("42949") && Strconv.DecimalValue("42949") == 42949
  {
    assert "4"[..0] == "" && Strconv.DecimalValue("4") == 4;
    assert "42"[..1] == "4" && Strconv.DecimalValue("42") == 42;
    assert "429"[..2] == "42" && Strconv.DecimalValue("429") == 429;
    assert "4294"[..3] == "429" && Strconv.DecimalValue("4294") == 4294;
    assert "42949"[..4] == "4294";
  }

  /** The value of the decimal text of 2^32 - 1, continued from its head. */
  lemma MaxUint32Text()
    ensures Strconv.AllDigits("4294967295") && Strconv.DecimalValue("4294967295") == 4294967295
  {
    MaxUint32Head();
    assert "429496"[..5] == "42949" && Strconv.DecimalValue("429496") == 429496;
    assert "4294967"[..6] == "429496" && Strconv.DecimalValue("4294967") == 4294967;
    assert "42949672"[..7] == "4294967" && Strconv.DecimalValue("42949672") == 42949672;
    assert "429496729"[..8] == "42949672" && Strconv.DecimalValue("429496729") == 429496729;
    assert "4294967295"[..9] == "429496729";
  }

  /** A line that shows it: "-1" denotes -1 for an sfixed32 field, yet is
      rejected. */
  lemma Sfixed32RejectsNegative(parseFloat: FloatParser)
    ensures Meaning(TYPE_SFIXED32, "-1") == Some(Int32V(-1))
    ensures Convert(TYPE_SFIXED32, "-1", parseFloat).Failure?
  {
    Strconv.ParseIntAccepts("-1", Strconv.W32);
    Strconv.ParseUintAccepts("-1", Strconv.W32);
    assert !Strconv.IsDigit('-');
  }

  /** Another: "4294967295" denotes no sfixed32 value, yet is stored as -1. */
  lemma Sfixed32WrapsLarge(parseFloat: FloatParser)
    ensures Meaning(TYPE_SFIXED32, "4294967295") == None
    ensures Convert(TYPE_SFIXED32, "4294967295", parseFloat) == Success(Int32V(-1))
  {
    MaxUint32Text();
    Strconv.ParseUintAccepts("4294967295", Strconv.W32);
  }

  /** As written, no primitive sfixed64 slot can be assigned: either the line
      is not an unsigned 64-bit decimal, or its `uint64` value is refused by
      `TrySetField`. */
  lemma Sfixed64NeverAssigned(f: InputField, parseFloat: FloatParser)
    requires !f.Nil? && f.isPrimitive && f.desc.typ == TYPE_SFIXED64
    ensures !Assigned(f, parseFloat)
  {
  }

  /** An enum field is never assigned: its line always meets the
      `invalid type` default branch, which names kind 14. */
  lemma EnumNeverAssigned(f: InputField, parseFloat: FloatParser)
    requires !f.Nil? && f.isPrimitive && f.desc.typ == TYPE_ENUM
    ensures SlotValue(f, parseFloat) == Failure(Text("invalid type: 14"))
    ensures !Assigned(f, parseFloat)
  {
    assert Strconv.FormatUint(14) == "14";
    var text := if f.pVal.Some? then f.pVal.value else "";
    assert Number(TYPE_ENUM) == 14;
    assert "invalid type: " + "14" == "invalid type: 14";
    assert Convert(TYPE_ENUM, text, parseFloat) == Failure(Text("invalid type: 14"));
  }

  /** The conversion with the two sfixed kinds parsed as signed decimals of
      their width, as the kinds mean. */
  function ConvertIntended(t: FieldType, text: string, parseFloat: FloatParser): (r: Result<Value, Error>)
  {
    match t
    case TYPE_SFIXED32 =>
      var v :- Strconv.ParseInt(text, Strconv.W32); Success(Int32V(v))
    case TYPE_SFIXED64 =>
      var v :- Strconv.ParseInt(text, Strconv.W64); Success(Int64V(v))
    case _ => Convert(t, text, parseFloat)
  }

  /** The corrected conversion accepts exactly the lines that denote a value
      of the kind, yields that value, and always with the Go type the kind
      takes. */
  lemma ConvertIntendedAgrees(t: FieldType, text: string, parseFloat: FloatParser)
    requires TextKind(t)
    ensures ConvertIntended(t, text, parseFloat).Success? <==> Meaning(t, text).Some?
    ensures ConvertIntended(t, text, parseFloat).Success? ==>
      ConvertIntended(t, text, parseFloat).value == Meaning(t, text).value &&
      GoTypeMatches(t, ConvertIntended(t, text, parseFloat).value)
  {
    match t
    case TYPE_SFIXED32 => SignedAgrees(text, Strconv.W32);
    case TYPE_SFIXED64 => SignedAgrees(text, Strconv.W64);
    case _ => ConvertAgrees(t, text, parseFloat);
  }

  // ---------------------------------------------------------------------
  // The call up to the network.

  /** End of input at a scalar of a flat request leaves the slots after it
      nil, and the slot itself is a nested message only a group field
      accepts; unless it is a group field with nothing after it, `setInput`
      cannot assign them, so no request is ever built. */
  lemma EarlyEofNeverBuilds(u: Universe, fields: seq<FieldDesc>, lines: seq<PromptResult>, fuel: nat, k: nat,
                            req: DynMessage, parseFloat: FloatParser)
    requires Flat(fields) && k < |fields| && k < |lines|
    requires k + 1 < |fields| || fields[k].typ != TYPE_GROUP || fields[k].repeated
    requires forall i :: 0 <= i < k ==> lines[i].Line?
    requires lines[k] == Eof
    ensures ReadFields(u, fields, lines, fuel).Success?
    ensures SetInput(req, ReadFields(u, fields, lines, fuel).value.slots, parseFloat).Failure?
  {
    FlatReadConsumesLines(u, fields, lines, fuel, k);
    var slots := ReadFields(u, fields, lines, fuel).value.slots;
    if k + 1 < |fields| {
      assert slots[k + 1] == Nil;
      assert !Assigned(slots[k + 1], parseFloat);
    } else {
      assert slots[k] == InputField(fields[k].name, fields[k], false, None, []);
      UnreadSlotFails(fields[k], parseFloat);
    }
  }

  /** The slot end of input leaves at a scalar field holds an empty nested
      message, which only a singular group field accepts. */
  lemma UnreadSlotFails(d: FieldDesc, parseFloat: FloatParser)
    requires !IsMessageType(d.typ) && (d.typ != TYPE_GROUP || d.repeated)
    ensures !Assigned(InputField(d.name, d, false, None, []), parseFloat)
  {
    assert SetInput(NewMessage(d.messageType), [], parseFloat).Success?;
  }

  /** The case the lemma above leaves out: end of input at a lone singular
      group field leaves a non-primitive slot, and `setInput` stores an
      empty message of the group's type into it. */
  lemma GroupAtEofBuilds(u: Universe, d: FieldDesc, fuel: nat, req: DynMessage, parseFloat: FloatParser)
    requires d.typ == TYPE_GROUP && !d.repeated
    ensures ReadFields(u, [d], [Eof], fuel) == Success(Inputs([InputField(d.name, d, false, None, [])], []))
    ensures SetInput(req, [InputField(d.name, d, false, None, [])], parseFloat)
      == Success(req.(values := req.values[d.name := MessageV(NewMessage(d.messageType))]))
  {
    var slot := InputField(d.name, d, false, None, []);
    ReadEofStep(u, [d], [Eof], fuel);
    assert [d][0] == d && |[d]| - 1 == 0;
    assert [slot] + Nils(0) == [slot] && [Eof][1..] == [];
    assert SlotValue(slot, parseFloat) == Success(MessageV(NewMessage(d.messageType)));
    assert Assign(req, slot, parseFloat) == Success(req.(values := req.values[d.name := MessageV(NewMessage(d.messageType))]));
    assert [slot][1..] == [];
  }

  /** What `Call` holds when it dials: the method path, the request built
      from the inputs, the response type, and the input not yet read. */
  datatype Invocation = Invocation(endpoint: string, request: DynMessage, responseFqn: string, rest: seq<PromptResult>)

  /** `Call(name)` up to `grpc.Dial`: look the RPC up, build the path, read
      the inputs, build the request; the first failing step ends the call
      with its error. */
  function Call(e: Navigator.Env, name: string, u: Universe, lines: seq<PromptResult>, fuel: nat, parseFloat: FloatParser)
    : (r: Result<Invocation, Error>)
    requires Navigator.Ready(e)
    ensures Navigator.RPC(e, name).Failure? ==> r == Failure(Navigator.RPC(e, name).error)
    ensures !Navigator.HasCurrentService(e) ==> r == Failure(Sentinel(ServiceUnselected))
    ensures r.Success? ==>
      && Navigator.RPC(e, name).Success?
      && r.value.endpoint == "/" + Navigator.GetDSN(e) + "/" + name
      && r.value.request.typeFqn == Navigator.RPC(e, name).value.requestType.fqn
      && r.value.responseFqn == Navigator.RPC(e, name).value.responseType.fqn
    ensures Navigator.RPC(e, name).Success? ==>
      var read := InputFields(u, Navigator.RPC(e, name).value.requestType.fields, lines, fuel);
      && (read.Failure? ==> r == Failure(read.error))
      && (read.Success? ==>
            (r.Success? <==> forall i :: 0 <= i < |read.value.slots| ==> Assigned(read.value.slots[i], parseFloat)))
      && (r.Success? ==> r.value.rest == read.value.rest)
    ensures Navigator.RPC(e, name).Success? ==>
      var rpc := Navigator.RPC(e, name).value;
      var read := InputFields(u, rpc.requestType.fields, lines, fuel);
      read.Success? ==>
        var s := SetInput(DynMessage(rpc.requestType.fqn, map[]), read.value.slots, parseFloat);
        && (s.Failure? ==> r == Failure(s.error))
        && (r.Success? ==> s.Success? && r.value.request == s.value)
  {
    var rpc :- Navigator.RPC(e, name);
    var ep := GenEndpoint(e, name);
    var input :- InputFields(u, rpc.requestType.fields, lines, fuel);
    var req :- SetInput(DynMessage(rpc.requestType.fqn, map[]), input.slots, parseFloat);
    Success(Invocation(ep, req, rpc.responseType.fqn, input.rest))
  }
}
