/** The descriptor sources of proto/descsource.go: a source backed by a
    server-reflection client, which forwards both queries, and a source
    backed by linked files, which answers them by walking its files in
    order; with the protoset loader that builds the latter. */
module DescSource {
  import opened Wrappers
  import opened Errors

  /** A descriptor a lookup returns, identified by its full name and the
      file that declares it. */
  datatype Descriptor = Descriptor(fullName: string, file: string)

  /** A linked file: its path, the full names of its services in
      declaration order, and what `FindDescriptorByName` answers for each
      name it declares. */
  datatype File = File(path: string, services: seq<string>, symbols: map<string, Descriptor>)

  /** The client a reflection-backed source holds: its answer to
      `ListServices`, and its `FindSymbol`. */
  datatype Client = Client(services: Result<seq<string>, Error>, find: string -> Result<Descriptor, Error>)

  datatype Source =
    | Reflection(client: Client)
    | Files(fds: seq<File>)

  // ---------------------------------------------------------------------
  // ListServices.

  /** Every file's services, file by file and in declaration order within a
      file. */
  function Flatten(fds: seq<File>): (r: seq<string>)
  {
    if |fds| == 0 then [] else fds[0].services + Flatten(fds[1..])
  }

  /** The number of services the files declare. */
  function ServiceCount(fds: seq<File>): nat {
    if |fds| == 0 then 0 else |fds[0].services| + ServiceCount(fds[1..])
  }

  /** Concatenating file lists concatenates their services. */
  lemma {:induction false} FlattenAppend(a: seq<File>, b: seq<File>)
    ensures Flatten(a + b) == Flatten(a) + Flatten(b)
    decreases |a|
  {
    if |a| == 0 {
      assert a + b == b;
    } else {
      assert (a + b)[1..] == a[1..] + b;
      FlattenAppend(a[1..], b);
    }
  }

  /** The list is as long as the per-file counts add up to. */
  lemma {:induction false} FlattenLength(fds: seq<File>)
    ensures |Flatten(fds)| == ServiceCount(fds)
    decreases |fds|
  {
    if |fds| > 0 {
      FlattenLength(fds[1..]);
    }
  }

  /** A name is listed exactly when some file declares it. */
  lemma {:induction false} FlattenMembers(fds: seq<File>, n: string)
    ensures n in Flatten(fds) <==> exists i :: 0 <= i < |fds| && n in fds[i].services
    decreases |fds|
  {
    if |fds| > 0 {
      FlattenMembers(fds[1..], n);
      if n in Flatten(fds[1..]) {
        var i :| 0 <= i < |fds[1..]| && n in fds[1..][i].services;
        assert fds[i + 1] == fds[1..][i];
      }
      if exists i :: 0 <= i < |fds| && n in fds[i].services {
        var i :| 0 <= i < |fds| && n in fds[i].services;
        if i > 0 {
          assert fds[1..][i - 1] == fds[i];
        }
      }
    }
  }

  /** `ListServices`: the reflection source asks its client; the file
      source appends every file's service names, file by file, and never
      fails. */
  method ListServices(src: Source) returns (r: Result<seq<string>, Error>)
    ensures src.Reflection? ==> r == src.client.services
    ensures src.Files? ==> r.Success? && r.value == Flatten(src.fds) && |r.value| == ServiceCount(src.fds)
  {
    if src.Reflection? {
      return src.client.services;
    }
    var fds := src.fds;
    var services: seq<string> := [];
    var i := 0;
    while i < |fds|
      invariant 0 <= i <= |fds|
      invariant services == Flatten(fds[..i])
    {
      var j := 0;
      while j < |fds[i].services|
        invariant 0 <= j <= |fds[i].services|
        invariant services == Flatten(fds[..i]) + fds[i].services[..j]
      {
        services := services + [fds[i].services[j]];
        j := j + 1;
      }
      assert fds[i].services[..j] == fds[i].services;
      FlattenAppend(fds[..i], [fds[i]]);
      assert Flatten([fds[i]]) == fds[i].services + Flatten([]);
      assert fds[..i + 1] == fds[..i] + [fds[i]];
      i := i + 1;
    }
    assert fds[..i] == fds;
    FlattenLength(fds);
    return Success(services);
  }

  // ---------------------------------------------------------------------
  // FindSymbol.

  /** `errors.Wrapf(errSymbolNotFound, "symbol %s", name)`. */
  function SymbolError(name: string): (r: Error)
    ensures Cause(r) == Sentinel(SymbolNotFound)
  {
    Wrapped(Sentinel(SymbolNotFound), "symbol " + name)
  }

  /** Some file of the list declares `name`. */
  predicate Declares(fds: seq<File>, name: string) {
    exists i :: 0 <= i < |fds| && name in fds[i].symbols
  }

  /** The file search of `FindSymbol`: the first file that declares the
      name answers. */
  function FindInFiles(fds: seq<File>, name: string): (r: Result<Descriptor, Error>)
    ensures r.Success? <==> Declares(fds, name)
    ensures r.Success? ==>
      exists i :: 0 <= i < |fds| && name in fds[i].symbols && r.value == fds[i].symbols[name]
        && forall j :: 0 <= j < i ==> name !in fds[j].symbols
    ensures r.Failure? ==> r.error == SymbolError(name)
  {
    if |fds| == 0 then Failure(SymbolError(name))
    else if name in fds[0].symbols then Success(fds[0].symbols[name])
    else
      var r := FindInFiles(fds[1..], name);
      assert forall i :: 1 <= i < |fds| ==> fds[i] == fds[1..][i - 1];
      r
  }

  /** `FindSymbol`: the reflection source asks its client; the file source
      searches its files. */
  function FindSymbol(src: Source, name: string): (r: Result<Descriptor, Error>)
    ensures src.Reflection? ==> r == src.client.find(name)
    ensures src.Files? ==> (r.Success? <==> Declares(src.fds, name))
    ensures src.Files? && r.Failure? ==> r.error == SymbolError(name)
  {
    match src
    case Reflection(c) => c.find(name)
    case Files(fds) => FindInFiles(fds, name)
  }

  /** Files added after a file that declares the name do not change the
      answer. */
  lemma {:induction false} FindInFilesPrefix(a: seq<File>, b: seq<File>, name: string)
    requires Declares(a, name)
    ensures FindInFiles(a + b, name) == FindInFiles(a, name)
    decreases |a|
  {
    if name !in a[0].symbols {
      assert (a + b)[1..] == a[1..] + b;
      var i :| 0 <= i < |a| && name in a[i].symbols;
      assert a[1..][i - 1] == a[i];
      FindInFilesPrefix(a[1..], b, name);
    }
  }

  // ---------------------------------------------------------------------
  // Building a source.

  /** What `linker.NewFileRecursive` yields for one file of a set. */
  datatype LinkResult = Linked(file: File) | LinkedNil | LinkFailed(message: string)

  /** How far loading one protoset file gets: it cannot be read, it is not a
      `FileDescriptorSet`, `protodesc.NewFiles` refuses it, or it yields a
      registry whose files link as listed. `links` is in the order
      `RangeFiles` visits the registry, which protoregistry leaves
      undefined: the model takes one order as given, so the order of files
      within one set (and where a failure cuts it) is not determined by the
      set itself. */
  datatype Load =
    | ReadFailed(message: string)
    | ParseFailed(message: string)
    | RegistryFailed(message: string)
    | Registry(links: seq<LinkResult>)

  datatype Protoset = Protoset(path: string, load: Load)

  /** The index of the first link failure, or the number of links when
      none fails. */
  function FailureAt(links: seq<LinkResult>): (k: nat)
    ensures k <= |links|
    ensures k < |links| ==> links[k].LinkFailed?
    ensures forall i :: 0 <= i < k ==> !links[i].LinkFailed?
  {
    if |links| == 0 || links[0].LinkFailed? then 0 else 1 + FailureAt(links[1..])
  }

  /** The files one registry contributes, in the order `RangeFiles` visits
      them: the walk stops at the first link failure, skips nil files and
      keeps the rest in order. The error of the failure goes to a variable
      that shadows the one checked afterwards, so it is dropped. */
  function LinkedFiles(links: seq<LinkResult>): (r: seq<File>)
    ensures |r| <= |links|
    ensures (forall i :: 0 <= i < |links| ==> links[i].Linked?) ==>
      |r| == |links| && forall i :: 0 <= i < |links| ==> r[i] == links[i].file
  {
    if |links| == 0 || links[0].LinkFailed? then []
    else if links[0].LinkedNil? then LinkedFiles(links[1..])
    else [links[0].file] + LinkedFiles(links[1..])
  }

  /** Which files are kept: a kept file was linked before the first
      failure, and every file linked before the first failure is kept. */
  lemma {:induction false} LinkedFilesKept(links: seq<LinkResult>)
    ensures forall j :: 0 <= j < |LinkedFiles(links)| ==> Linked(LinkedFiles(links)[j]) in links[..FailureAt(links)]
    ensures forall i :: 0 <= i < FailureAt(links) && links[i].Linked? ==> links[i].file in LinkedFiles(links)
    decreases |links|
  {
    if |links| > 0 && !links[0].LinkFailed? {
      var tail := links[1..];
      LinkedFilesKept(tail);
      var k := FailureAt(links);
      assert links[..k] == [links[0]] + tail[..k - 1];
      forall i | 0 < i < k && links[i].Linked? ensures links[i].file in LinkedFiles(links) {
        assert tail[i - 1] == links[i];
      }
    }
  }

  /** Order is kept: before any failure, the links of a registry split
      anywhere contribute the files of the first part, then those of the
      second. */
  lemma {:induction false} LinkedFilesAppend(a: seq<LinkResult>, b: seq<LinkResult>)
    requires forall i :: 0 <= i < |a| ==> !a[i].LinkFailed?
    ensures LinkedFiles(a + b) == LinkedFiles(a) + LinkedFiles(b)
    decreases |a|
  {
    if |a| == 0 {
      assert a + b == b;
    } else {
      assert (a + b)[1..] == a[1..] + b;
      LinkedFilesAppend(a[1..], b);
    }
  }

  /** `%q` of a path, without Go's escaping of special characters. */
  function Quote(s: string): string {
    "\"" + s + "\""
  }

  /** The error a protoset file that stops loading ends the constructor
      with. The first two are flat `fmt.Errorf` texts (`%v`); the registry
      error is wrapped with `%w`, so the registry's own error stays its
      cause. */
  function LoadError(p: Protoset): (r: Error)
    requires !p.load.Registry?
    ensures p.load.RegistryFailed? <==> r.Wrapped?
    ensures p.load.RegistryFailed? ==> Cause(r) == Text(p.load.message)
  {
    match p.load
    case ReadFailed(m) => Text("could not load protoset file " + Quote(p.path) + ": " + m)
    case ParseFailed(m) => Text("could not parse contents of protoset file " + Quote(p.path) + ": " + m)
    case RegistryFailed(m) => Wrapped(Text(m), "cloud not create protoregistry.Files from filedescriptor set")
  }

  /** Every set loads as far as a registry. */
  predicate AllLoad(sets: seq<Protoset>) {
    forall i :: 0 <= i < |sets| ==> sets[i].load.Registry?
  }

  /** The files of the loaded sets, set by set in argument order. */
  function Collected(sets: seq<Protoset>): seq<File>
    requires AllLoad(sets)
  {
    if |sets| == 0 then [] else LinkedFiles(sets[0].load.links) + Collected(sets[1..])
  }

  /** The protoset loop: the first set that does not load ends it with its
      error; otherwise the files of every set, in argument order. */
  function LoadProtosets(sets: seq<Protoset>): (r: Result<seq<File>, Error>)
    ensures r.Success? <==> AllLoad(sets)
    ensures r.Success? ==> r.value == Collected(sets)
    ensures r.Failure? ==>
      exists k :: 0 <= k < |sets| && !sets[k].load.Registry? && r.error == LoadError(sets[k])
        && forall j :: 0 <= j < k ==> sets[j].load.Registry?
  {
    if |sets| == 0 then Success([])
    else if !sets[0].load.Registry? then Failure(LoadError(sets[0]))
    else
      var rest := LoadProtosets(sets[1..]);
      assert forall i :: 1 <= i < |sets| ==> sets[i] == sets[1..][i - 1];
      if rest.Failure? then rest
      else Success(LinkedFiles(sets[0].load.links) + rest.value)
  }

  /** `NewDescriptorSourceFromProtoset`. */
  function NewFromProtoset(sets: seq<Protoset>): (r: Result<Source, Error>)
    ensures r.Success? <==> AllLoad(sets)
    ensures r.Success? ==> r.value == Files(Collected(sets))
  {
    var fds :- LoadProtosets(sets);
    Success(Files(fds))
  }

  /** `NewDescriptorSourceFromFiles`: the compiler is outside the model and
      its outcome is given; a failure is wrapped. */
  function NewFromFiles(compiled: Result<seq<File>, Error>): (r: Result<Source, Error>)
    ensures compiled.Success? ==> r == Success(Files(compiled.value))
    ensures compiled.Failure? ==> r.Failure? && Cause(r.error) == Cause(compiled.error)
  {
    match compiled
    case Success(fds) => Success(Files(fds))
    case Failure(e) => Failure(Wrapped(e, "proto: failed to compile proto files"))
  }

  /** Loading sets one after the other lists their services one after the
      other. */
  lemma {:induction false} CollectedAppend(a: seq<Protoset>, b: seq<Protoset>)
    requires AllLoad(a) && AllLoad(b)
    ensures AllLoad(a + b) && Collected(a + b) == Collected(a) + Collected(b)
    decreases |a|
  {
    if |a| == 0 {
      assert a + b == b;
    } else {
      assert (a + b)[1..] == a[1..] + b;
      CollectedAppend(a[1..], b);
    }
  }

  /** The services of a protoset-built source follow argument order. */
  lemma ProtosetServiceOrder(a: seq<Protoset>, b: seq<Protoset>)
    requires AllLoad(a) && AllLoad(b)
    ensures NewFromProtoset(a + b).Success?
    ensures Flatten(NewFromProtoset(a + b).value.fds) ==
      Flatten(NewFromProtoset(a).value.fds) + Flatten(NewFromProtoset(b).value.fds)
  {
    CollectedAppend(a, b);
    FlattenAppend(Collected(a), Collected(b));
  }

  /** A link failure ends only its own set: the files linked before it are
      kept and the later sets still load. */
  lemma LinkFailureKeepsPrefix(p: Protoset, k: nat, rest: seq<Protoset>)
    requires p.load.Registry? && k < |p.load.links| && p.load.links[k].LinkFailed?
    requires AllLoad(rest)
    ensures NewFromProtoset([p] + rest).Success?
    ensures NewFromProtoset([p] + rest).value.fds == LinkedFiles(p.load.links[..k]) + Collected(rest)
  {
    LinkedStopsAtFailure(p.load.links, k);
    assert ([p] + rest)[1..] == rest;
  }

  lemma {:induction false} LinkedStopsAtFailure(links: seq<LinkResult>, k: nat)
    requires k < |links| && links[k].LinkFailed?
    ensures LinkedFiles(links) == LinkedFiles(links[..k])
    decreases k
  {
    if k > 0 && !links[0].LinkFailed? {
      assert links[1..][k - 1] == links[k];
      LinkedStopsAtFailure(links[1..], k - 1);
      assert links[..k][1..] == links[1..][..k - 1];
    }
  }
}
