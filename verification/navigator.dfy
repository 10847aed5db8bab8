/** The navigator of entity/env.go: the current package and service, the
    per-package cache, and the lookups and transitions over them. */
module Navigator {
  import opened Wrappers
  import opened Errors
  import opened Strings
  import opened Entity
  import Format

  /** `Env`: the known packages, the per-package cache, and the two
      selection strings ("" means nothing selected). */
  datatype Env = Env(
    pkgs: seq<Package>,
    cache: map<string, Package>,
    currentPackage: string,
    currentService: string)

  /** The outcome of a transition: the state after the call and the error
      it returned, if any. */
  datatype Step = Step(env: Env, err: Option<Error>)

  datatype Header = Header(key: string, val: string)

  /** `New`: nothing selected and an empty cache. */
  function New(pkgs: seq<Package>): (e: Env)
    ensures e.pkgs == pkgs && e.cache == map[]
    ensures !HasCurrentPackage(e) && !HasCurrentService(e)
  {
    Env(pkgs, map[], "", "")
  }

  predicate HasCurrentPackage(e: Env) {
    e.currentPackage != ""
  }

  predicate HasCurrentService(e: Env) {
    e.currentService != ""
  }

  /** The cache holds an entry for the selected package. Services and
      Messages read that entry without checking for it (the Go code would
      dereference a nil *Package); entity/env.go never writes the cache, so
      whoever fills it is outside this model. */
  predicate Ready(e: Env) {
    e.currentPackage == "" || e.currentPackage in e.cache
  }

  /** Some known package has this name. */
  predicate KnownPackage(e: Env, name: string) {
    HasNamed(e.pkgs, PackageName, name)
  }

  function Services(e: Env): (r: Result<seq<Service>, Error>)
    requires Ready(e)
    ensures r.Failure? <==> !HasCurrentPackage(e)
    ensures r.Failure? ==> r.error == Sentinel(PackageUnselected)
    ensures r.Success? ==> r.value == e.cache[e.currentPackage].services
  {
    if !HasCurrentPackage(e) then Failure(Sentinel(PackageUnselected))
    else Success(e.cache[e.currentPackage].services)
  }

  function Messages(e: Env): (r: Result<seq<Message>, Error>)
    requires Ready(e)
    ensures r.Failure? <==> !HasCurrentPackage(e)
    ensures r.Failure? ==> r.error == Sentinel(PackageUnselected)
    ensures r.Success? ==> r.value == e.cache[e.currentPackage].messages
  {
    if !HasCurrentPackage(e) then Failure(Sentinel(PackageUnselected))
    else Success(e.cache[e.currentPackage].messages)
  }

  /** `Service(name)`: the first service of the current package with that name. */
  function Service(e: Env, name: string): (r: Result<Service, Error>)
    requires Ready(e)
    ensures !HasCurrentPackage(e) ==> r == Failure(Sentinel(PackageUnselected))
    ensures HasCurrentPackage(e) ==>
      (r.Success? <==> HasNamed(e.cache[e.currentPackage].services, ServiceName, name))
    ensures r.Success? ==> FirstNamed(e.cache[e.currentPackage].services, ServiceName, name, r.value)
    ensures HasCurrentPackage(e) && r.Failure? ==> r.error == NotFound(InvalidServiceName, name)
  {
    var svcs :- Services(e);
    FindFirstIsFirst(svcs, ServiceName, name);
    match FindFirst(svcs, ServiceName, name)
    case Some(i) => Success(svcs[i])
    case None => Failure(NotFound(InvalidServiceName, name))
  }

  /** The cut set `getNameFromFQN` trims with: "." + package + ".". */
  function FqnCutSet(e: Env): set<char> {
    Chars("." + e.currentPackage + ".")
  }

  /** `getNameFromFQN`: `strings.TrimLeft(fqn, "." + currentPackage + ".")`.
      It strips leading characters that occur in the package name or are
      dots, which is not the same as stripping the package prefix. */
  function GetNameFromFQN(e: Env, fqn: string): (r: string)
    ensures |r| <= |fqn| && r == fqn[|fqn| - |r|..]
    ensures |r| > 0 ==> r[0] != '.' && r[0] !in e.currentPackage
    ensures forall i :: 0 <= i < |fqn| - |r| ==> fqn[i] == '.' || fqn[i] in e.currentPackage
  {
    TrimLeft(fqn, FqnCutSet(e))
  }

  /** Normalising twice is normalising once. */
  lemma GetNameFromFQNIdempotent(e: Env, fqn: string)
    ensures GetNameFromFQN(e, GetNameFromFQN(e, fqn)) == GetNameFromFQN(e, fqn)
  {
    TrimLeftIdempotent(fqn, FqnCutSet(e));
  }

  /** The qualified name of a message of the current package normalises to
      the bare name exactly when the bare name does not begin with a dot or
      with a character of the package name. */
  lemma {:induction false} GetNameFromFQNQualified(e: Env, n: string)
    ensures GetNameFromFQN(e, "." + e.currentPackage + "." + n) == n <==>
      (n == "" || (n[0] != '.' && n[0] !in e.currentPackage))
  {
    var q := "." + e.currentPackage + ".";
    var fqn := q + n;
    var cut := FqnCutSet(e);
    assert forall i :: 0 <= i < |q| ==> fqn[i] == q[i] && q[i] in cut;
    if n == "" || n[0] !in cut {
      assert |q| < |fqn| ==> fqn[|q|] == n[0];
      TrimLeftUnique(fqn, cut, |q|);
      assert fqn[|q|..] == n;
    } else {
      assert fqn[|q|] == n[0];
    }
  }

  /** `Message(name)`: the first message of the current package whose name
      equals the normalised query; the error names the query as given. */
  function Message(e: Env, name: string): (r: Result<Message, Error>)
    requires Ready(e)
    ensures !HasCurrentPackage(e) ==> r == Failure(Sentinel(PackageUnselected))
    ensures HasCurrentPackage(e) ==>
      (r.Success? <==> HasNamed(e.cache[e.currentPackage].messages, MessageName, GetNameFromFQN(e, name)))
    ensures r.Success? ==>
      FirstNamed(e.cache[e.currentPackage].messages, MessageName, GetNameFromFQN(e, name), r.value)
    ensures HasCurrentPackage(e) && r.Failure? ==> r.error == NotFound(InvalidMessageName, name)
  {
    var msgs :- Messages(e);
    var msgName := GetNameFromFQN(e, name);
    FindFirstIsFirst(msgs, MessageName, msgName);
    match FindFirst(msgs, MessageName, msgName)
    case Some(i) => Success(msgs[i])
    case None => Failure(NotFound(InvalidMessageName, name))
  }

  /** The package qualification "." + package + "." removed as a prefix,
      which is what the comment on `getNameFromFQN` describes. */
  function StripPackagePrefix(e: Env, fqn: string): (r: string)
    ensures var q := "." + e.currentPackage + ".";
      && (q <= fqn ==> q + r == fqn)
      && (!(q <= fqn) ==> r == fqn)
  {
    var q := "." + e.currentPackage + ".";
    if |q| <= |fqn| && fqn[..|q|] == q then fqn[|q|..] else fqn
  }

  /** `Message` with the qualification removed as a prefix. */
  function MessageByPrefix(e: Env, name: string): (r: Result<Message, Error>)
    requires Ready(e)
    ensures !HasCurrentPackage(e) ==> r == Failure(Sentinel(PackageUnselected))
    ensures HasCurrentPackage(e) ==>
      (r.Success? <==> HasNamed(e.cache[e.currentPackage].messages, MessageName, StripPackagePrefix(e, name)))
    ensures r.Success? ==>
      FirstNamed(e.cache[e.currentPackage].messages, MessageName, StripPackagePrefix(e, name), r.value)
    ensures HasCurrentPackage(e) && r.Failure? ==> r.error == NotFound(InvalidMessageName, name)
  {
    var msgs :- Messages(e);
    var msgName := StripPackagePrefix(e, name);
    FindFirstIsFirst(msgs, MessageName, msgName);
    match FindFirst(msgs, MessageName, msgName)
    case Some(i) => Success(msgs[i])
    case None => Failure(NotFound(InvalidMessageName, name))
  }

  /** With prefix stripping, a name qualified by the current package
      resolves to exactly the message its bare name resolves to, for every
      bare name. */
  lemma MessageByPrefixQualified(e: Env, n: string)
    requires Ready(e) && HasCurrentPackage(e)
    requires !("." + e.currentPackage + "." <= n)
    ensures MessageByPrefix(e, "." + e.currentPackage + "." + n).Success? <==>
      MessageByPrefix(e, n).Success?
    ensures MessageByPrefix(e, "." + e.currentPackage + "." + n).Success? ==>
      MessageByPrefix(e, "." + e.currentPackage + "." + n).value == MessageByPrefix(e, n).value
  {
    var q := "." + e.currentPackage + ".";
    assert (q + n)[..|q|] == q;
    assert (q + n)[|q|..] == n;
    assert StripPackagePrefix(e, q + n) == n;
    assert StripPackagePrefix(e, n) == n;
  }

  /** The as-written normalisation over-strips: with package "test" the
      message "status" is looked up as "atus". */
  lemma GetNameFromFQNOverStrips(e: Env, fqn: string)
    requires e.currentPackage == "test" && fqn == ".test.status"
    ensures GetNameFromFQN(e, fqn) == "atus"
  {
    var cut := FqnCutSet(e);
    var pattern := "." + e.currentPackage + ".";
    assert pattern[0] == '.' && pattern[1] == 't' && pattern[2] == 'e' && pattern[3] == 's';
    assert '.' in cut && 't' in cut && 'e' in cut && 's' in cut;
    assert 'a' !in pattern;
    assert fqn[0] == '.' && fqn[1] == 't' && fqn[2] == 'e' && fqn[3] == 's';
    assert fqn[4] == 't' && fqn[5] == '.' && fqn[6] == 's' && fqn[7] == 't' && fqn[8] == 'a';
    TrimLeftUnique(fqn, cut, 8);
    assert fqn[8..] == "atus";
  }

  /** So a package "test" holding a message "status" cannot find it by its
      qualified name, although prefix stripping does. */
  lemma MessageOverStripExample(st: Entity.Message, e: Env)
    requires st == Entity.Message("status", Schema.MessageDesc("status", ".test.status", [], []))
    requires e == Env([Package("test", [], [st])], map["test" := Package("test", [], [st])], "test", "")
    ensures Message(e, ".test.status").Failure?
    ensures MessageByPrefix(e, ".test.status") == Success(st)
  {
    var msgs := e.cache[e.currentPackage].messages;
    assert msgs == [st];
    GetNameFromFQNOverStrips(e, ".test.status");
    assert !HasNamed(msgs, MessageName, "atus") by {
      assert MessageName(msgs[0]) == "status" != "atus";
    }
    PrefixOfStatus(e);
    assert HasNamed(msgs, MessageName, "status") by {
      assert MessageName(msgs[0]) == "status";
    }
  }

  lemma PrefixOfStatus(e: Env)
    requires e.currentPackage == "test"
    ensures StripPackagePrefix(e, ".test.status") == "status"
  {
    var q := "." + e.currentPackage + ".";
    assert q == ".test.";
    assert ".test.status"[..6] == q;
    assert ".test.status"[6..] == "status";
  }

  /** `RPCs()`: the RPCs of the current service. */
  function RPCs(e: Env): (r: Result<seq<RPC>, Error>)
    requires Ready(e)
    ensures !HasCurrentService(e) ==> r == Failure(Sentinel(ServiceUnselected))
    ensures HasCurrentService(e) && !HasCurrentPackage(e) ==> r == Failure(Sentinel(PackageUnselected))
    ensures HasCurrentService(e) && HasCurrentPackage(e) ==>
      (r.Success? <==> HasNamed(e.cache[e.currentPackage].services, ServiceName, e.currentService))
    ensures r.Success? ==>
      (exists s :: FirstNamed(e.cache[e.currentPackage].services, ServiceName, e.currentService, s) && r.value == s.rpcs)
    ensures HasCurrentService(e) && HasCurrentPackage(e) && r.Failure? ==>
      r.error == NotFound(InvalidServiceName, e.currentService)
  {
    if !HasCurrentService(e) then Failure(Sentinel(ServiceUnselected))
    else
      var svc :- Service(e, e.currentService);
      Success(svc.rpcs)
  }

  /** `RPC(name)`: the first RPC of the current service with that name. */
  function RPC(e: Env, name: string): (r: Result<RPC, Error>)
    requires Ready(e)
    ensures RPCs(e).Failure? ==> r == Failure(RPCs(e).error)
    ensures RPCs(e).Success? ==> (r.Success? <==> HasNamed(RPCs(e).value, RPCName, name))
    ensures r.Success? ==> FirstNamed(RPCs(e).value, RPCName, name, r.value)
    ensures RPCs(e).Success? && r.Failure? ==> r.error == NotFound(InvalidRPCName, name)
  {
    var rpcs :- RPCs(e);
    FindFirstIsFirst(rpcs, RPCName, name);
    match FindFirst(rpcs, RPCName, name)
    case Some(i) => Success(rpcs[i])
    case None => Failure(NotFound(InvalidRPCName, name))
  }

  /** `Headers()` panics unconditionally; the model returns that panic. */
  function Headers(e: Env): (r: Result<seq<Header>, Error>)
    ensures r == Failure(Panic("not implemented yet"))
  {
    Failure(Panic("not implemented yet"))
  }

  /** `UsePackage(name)`: selects a known package; only the package
      selection changes. */
  function UsePackage(e: Env, name: string): (r: Step)
    ensures r.err.None? <==> KnownPackage(e, name)
    ensures r.err.None? ==> r.env == e.(currentPackage := name)
    ensures r.err.Some? ==> r.env == e && r.err.value == NotFound(UnknownPackage, name)
  {
    FindFirstIsFirst(e.pkgs, PackageName, name);
    match FindFirst(e.pkgs, PackageName, name)
    case Some(_) => Step(e.(currentPackage := name), None)
    case None => Step(e, Some(NotFound(UnknownPackage, name)))
  }

  const PackageHint := "please set package (package_name.service_name or set --package flag)"

  /** The package part of a dotted "package.service" name. */
  function PackagePart(name: string): string {
    SplitN2(name, '.')[0]
  }

  /** What UseService needs of the cache: the package it is about to use
      has an entry. */
  predicate UseServiceReady(e: Env, name: string) {
    && Ready(e)
    && (e.currentPackage == "" && '.' in name && PackagePart(name) != "" && KnownPackage(e, PackagePart(name))
        ==> PackagePart(name) in e.cache)
  }

  /** The second half of UseService: match the name against the current
      package's services. */
  function SelectService(e: Env, name: string): (r: Step)
    requires Ready(e)
  {
    match Services(e)
    case Failure(err) => Step(e, Some(Wrapped(err, "failed to get services")))
    case Success(svcs) =>
      if HasNamed(svcs, ServiceName, name) then Step(e.(currentService := name), None)
      else Step(e, Some(NotFound(UnknownService, name)))
  }

  /** `UseService(name)`. With no package selected the name must be dotted:
      its part before the first dot is selected as the package, then the
      WHOLE name is matched against that package's services. The package
      selection stays even when the service match fails. An unknown package
      is wrapped with the name used as a printf format (`errors.Wrapf(err,
      name)`), so a '%' in the name is formatted. */
  function UseService(e: Env, name: string): (r: Step)
    requires UseServiceReady(e, name)
    ensures r.env.pkgs == e.pkgs && r.env.cache == e.cache
    ensures r.err.None? ==>
      (r.env.currentService == name && HasCurrentPackage(r.env) && r.env.currentPackage in r.env.cache
       && HasNamed(r.env.cache[r.env.currentPackage].services, ServiceName, name))
    ensures r.err.Some? ==> r.env.currentService == e.currentService
    ensures HasCurrentPackage(e) ==> r.env.currentPackage == e.currentPackage
    ensures HasCurrentPackage(e) ==> (r.err.None? <==> HasNamed(e.cache[e.currentPackage].services, ServiceName, name))
    ensures HasCurrentPackage(e) && r.err.Some? ==> r.env == e && r.err.value == NotFound(UnknownService, name)
    ensures !HasCurrentPackage(e) && '.' !in name ==>
      r.env == e && r.err == Some(Wrapped(Sentinel(PackageUnselected), PackageHint))
    ensures !HasCurrentPackage(e) && '.' in name && !KnownPackage(e, PackagePart(name)) ==>
      r.env == e && r.err.Some? && Is(r.err.value, UnknownPackage) &&
      r.err.value == Wrapped(NotFound(UnknownPackage, PackagePart(name)), Format.SprintfNoArgs(name))
    ensures !HasCurrentPackage(e) && '.' in name && KnownPackage(e, PackagePart(name)) ==>
      r.env.currentPackage == PackagePart(name)
  {
    if e.currentPackage == "" then
      var s := SplitN2(name, '.');
      if |s| != 2 then Step(e, Some(Wrapped(Sentinel(PackageUnselected), PackageHint)))
      else
        var st := UsePackage(e, s[0]);
        if st.err.Some? then Step(e, Some(Wrapped(st.err.value, Format.SprintfNoArgs(name))))
        else SelectService(st.env, name)
    else SelectService(e, name)
  }

  /** A verb in an unknown package name turns into a missing-operand report
      in the error context: with `pre` = "x", `c` = 'd', `mid` = "" and
      `svc` = "Svc", the name "x%d.Svc" is wrapped with "x%!d(MISSING).Svc". */
  lemma UnknownPackageFormatsName(e: Env, pre: string, c: char, mid: string, svc: string)
    requires UseServiceReady(e, pre + "%" + [c] + mid + "." + svc)
    requires !HasCurrentPackage(e) && !KnownPackage(e, pre + "%" + [c] + mid)
    requires '.' !in pre && '.' !in mid && '%' !in pre && '%' !in mid && '%' !in svc
    requires !Format.IsFlag(c) && !Format.IsDigit(c) && c != '%' && c != '.'
    ensures UseService(e, pre + "%" + [c] + mid + "." + svc).err
      == Some(Wrapped(NotFound(UnknownPackage, pre + "%" + [c] + mid), pre + Format.MissingReport(c) + mid + "." + svc))
  {
    var p := pre + "%" + [c] + mid;
    var name := p + "." + svc;
    FormatsDottedName(pre, c, mid, svc);
    DottedPackagePart(p, svc);
    UnknownPackageContext(e, name, p);
  }

  /** The formatted context of such a name: the verb becomes its
      missing-operand report, the text around it is kept. */
  lemma FormatsDottedName(pre: string, c: char, mid: string, svc: string)
    requires '%' !in pre && '%' !in mid && '%' !in svc
    requires !Format.IsFlag(c) && !Format.IsDigit(c) && c != '%' && c != '.'
    ensures Format.SprintfNoArgs(pre + "%" + [c] + mid + "." + svc) == pre + Format.MissingReport(c) + mid + "." + svc
  {
    var tail := mid + "." + svc;
    assert pre + "%" + [c] + mid + "." + svc == pre + "%" + [c] + tail;
    assert '%' !in tail;
    Format.MissingOperand(pre, c, tail);
    assert pre + Format.MissingReport(c) + tail == pre + Format.MissingReport(c) + mid + "." + svc;
  }

  /** A dot-free package part followed by "." and a service: the name is
      dotted and its package part is that part. */
  lemma DottedPackagePart(p: string, svc: string)
    requires '.' !in p
    ensures '.' in p + "." + svc && PackagePart(p + "." + svc) == p
  {
    assert (p + "." + svc)[|p|] == '.';
    SplitTail(p, svc);
  }

  /** The error of a dotted name whose package part is unknown. */
  lemma UnknownPackageContext(e: Env, name: string, p: string)
    requires UseServiceReady(e, name) && !HasCurrentPackage(e)
    requires '.' in name && PackagePart(name) == p && !KnownPackage(e, p)
    ensures UseService(e, name).err == Some(Wrapped(NotFound(UnknownPackage, p), Format.SprintfNoArgs(name)))
  {
  }

  /** The dotted name split at its first dot: the package part before, the
      service part after. */
  lemma SplitTail(p: string, s: string)
    requires '.' !in p
    ensures SplitN2(p + "." + s, '.') == [p, s]
  {
    var name := p + "." + s;
    assert name[|p|] == '.';
    var r := SplitN2(name, '.');
    assert r[0] == name[..|p|] == p;
    assert r[1] == name[|p| + 1..] == s;
  }

  /** As written, a dotted selection that succeeds stores the whole dotted
      name as the service: never the state of selecting the package, then
      its service by the part after the dot, and the DSN names the package
      twice. */
  lemma UseServiceDottedKeepsWholeName(e: Env, p: string, s: string)
    requires '.' !in p && UseServiceReady(e, p + "." + s) && !HasCurrentPackage(e)
    requires UseService(e, p + "." + s).err.None?
    ensures var r := UseService(e, p + "." + s).env;
      && r.currentService == p + "." + s
      && r != e.(currentPackage := p, currentService := s)
      && GetDSN(r) == p + "." + p + "." + s
  {
    SplitTail(p, s);
    var r := UseService(e, p + "." + s).env;
    assert |r.currentService| != |s|;
  }

  /** Consequently, when no service of the package has a dot in its name,
      the dotted shortcut always fails with UnknownService. */
  lemma DottedShortcutNeverMatches(e: Env, p: string, s: string)
    requires '.' !in p && p != "" && UseServiceReady(e, p + "." + s) && !HasCurrentPackage(e) && KnownPackage(e, p)
    requires p in e.cache && forall i :: 0 <= i < |e.cache[p].services| ==> '.' !in e.cache[p].services[i].name
    ensures UseService(e, p + "." + s).err == Some(NotFound(UnknownService, p + "." + s))
  {
    SplitTail(p, s);
    var svcs := e.cache[p].services;
    assert (p + "." + s)[|p|] == '.';
    assert !HasNamed(svcs, ServiceName, p + "." + s) by {
      forall j | 0 <= j < |svcs| ensures ServiceName(svcs[j]) != p + "." + s {
        assert '.' !in svcs[j].name;
      }
    }
  }

  /** `UseService` as the dotted shortcut is meant: the part after the first
      dot is matched against the services of the package before it. */
  function UseServiceIntended(e: Env, name: string): (r: Step)
    requires UseServiceReady(e, name)
    ensures HasCurrentPackage(e) ==> r == UseService(e, name)
  {
    if e.currentPackage == "" then
      var s := SplitN2(name, '.');
      if |s| != 2 then Step(e, Some(Wrapped(Sentinel(PackageUnselected), PackageHint)))
      else
        var st := UsePackage(e, s[0]);
        if st.err.Some? then Step(e, Some(Wrapped(st.err.value, Format.SprintfNoArgs(name))))
        else SelectService(st.env, s[1])
    else SelectService(e, name)
  }

  /** The corrected shortcut is the two-step selection: "p.s" with no
      package selected behaves as UsePackage(p) followed by UseService(s). */
  lemma UseServiceIntendedTwoStep(e: Env, p: string, s: string)
    requires '.' !in p && p != "" && UseServiceReady(e, p + "." + s) && !HasCurrentPackage(e) && KnownPackage(e, p)
    ensures var st := UsePackage(e, p);
      st.err.None? && UseServiceReady(st.env, s)
      && UseServiceIntended(e, p + "." + s) == UseService(st.env, s)
  {
    SplitTail(p, s);
  }

  /** The dotted shortcut is UsePackage of the package part followed by
      UseService of the same (whole) name. */
  lemma UseServiceDotted(e: Env, name: string)
    requires UseServiceReady(e, name)
    requires !HasCurrentPackage(e) && '.' in name && KnownPackage(e, PackagePart(name))
    ensures var st := UsePackage(e, PackagePart(name));
      st.err.None? && UseServiceReady(st.env, name) && UseService(e, name) == UseService(st.env, name)
  {
  }

  /** With a package selected and a service of it chosen by its own name,
      both transitions succeed in sequence. */
  lemma SelectPackageThenService(e: Env, p: string, s: string)
    requires KnownPackage(e, p) && p != "" && p in e.cache
    requires HasNamed(e.cache[p].services, ServiceName, s)
    ensures var e1 := UsePackage(e, p);
      e1.err.None? && UseServiceReady(e1.env, s)
      && UseService(e1.env, s) == Step(e.(currentPackage := p, currentService := s), None)
  {
  }

  /** `GetDSN()`: "" with no package, else the package, followed by "." and
      the service when one is selected. */
  function GetDSN(e: Env): (r: string)
    ensures !HasCurrentPackage(e) ==> r == ""
    ensures HasCurrentPackage(e) ==> |r| >= |e.currentPackage| > 0 && r[..|e.currentPackage|] == e.currentPackage
    ensures HasCurrentPackage(e) && !HasCurrentService(e) ==> r == e.currentPackage
    ensures HasCurrentPackage(e) && HasCurrentService(e) ==>
      r[|e.currentPackage|..] == "." + e.currentService
  {
    if e.currentPackage == "" then ""
    else if e.currentService != "" then e.currentPackage + "." + e.currentService
    else e.currentPackage
  }

  /** After selecting package p and its service s the DSN is "p.s". */
  lemma DsnAfterSelection(e: Env, p: string, s: string)
    requires KnownPackage(e, p) && p != "" && p in e.cache
    requires HasNamed(e.cache[p].services, ServiceName, s) && s != ""
    ensures var e1 := UsePackage(e, p).env;
      UseServiceReady(e1, s) && GetDSN(UseService(e1, s).env) == p + "." + s
  {
    SelectPackageThenService(e, p, s);
  }

  /** Every package known to the navigator has a cache entry. */
  predicate CacheComplete(e: Env) {
    forall i :: 0 <= i < |e.pkgs| ==> e.pkgs[i].name in e.cache
  }

  /** A complete cache keeps the navigator ready through both transitions. */
  lemma TransitionsKeepReady(e: Env, name: string)
    requires Ready(e) && CacheComplete(e)
    ensures Ready(UsePackage(e, name).env)
    ensures UseServiceReady(e, name) && Ready(UseService(e, name).env)
  {
    if e.currentPackage == "" && '.' in name && KnownPackage(e, PackagePart(name)) {
      var j :| 0 <= j < |e.pkgs| && PackageName(e.pkgs[j]) == PackagePart(name);
      assert e.pkgs[j].name in e.cache;
    }
    if KnownPackage(e, name) {
      var j :| 0 <= j < |e.pkgs| && PackageName(e.pkgs[j]) == name;
      assert e.pkgs[j].name in e.cache;
    }
  }
}
