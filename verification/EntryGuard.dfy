/** The build guard: every chunk a plain-Node entry can reach is scanned once for a require of
    Electron, with one memo shared by all entries. */
module EntryGuard {
  import opened Options

  datatype Chunk = Chunk(imports: seq<string>, dynamicImports: seq<string>, code: string)

  // Chunks by file name. Imported names may lie outside the bundle.
  type Bundle = map<string, Chunk>

  function Imports(chunk: Chunk): seq<string> {
    chunk.imports + chunk.dynamicImports
  }

  // ---------------------------------------------------------------- reachability

  /** The file is in the bundle and imports the name, statically or dynamically. */
  predicate Names(bundle: Bundle, file: string, name: string) {
    file in bundle && (name in bundle[file].imports || name in bundle[file].dynamicImports)
  }

  /** Each file of the path imports the next; all but perhaps the last are in the bundle. */
  ghost predicate Path(bundle: Bundle, path: seq<string>) {
    path != [] && forall k | 0 <= k < |path| - 1 :: Names(bundle, path[k], path[k + 1])
  }

  ghost predicate Reaches(bundle: Bundle, from: string, to: string) {
    exists path :: Path(bundle, path) && path[0] == from && path[|path| - 1] == to
  }

  /** The worklist: what is still to come from a stack and the names already seen. */
  function Collect(bundle: Bundle, stack: seq<string>, seen: set<string>): seq<string>
    decreases bundle.Keys - seen, |stack|
  {
    if stack == [] then []
    else
      var name, rest := stack[|stack| - 1], stack[..|stack| - 1];
      if name in seen then Collect(bundle, rest, seen)
      else if name !in bundle then
        SmallerOrSame(bundle, seen, name);
        Collect(bundle, rest, seen + {name})
      else [name] + Collect(bundle, rest + Imports(bundle[name]), seen + {name})
  }

  lemma SmallerOrSame(bundle: Bundle, seen: set<string>, name: string)
    requires name !in bundle
    ensures bundle.Keys - (seen + {name}) == bundle.Keys - seen
  {}

  method CollectReachableChunks(entry: string, bundle: Bundle) returns (reachable: seq<string>)
    ensures reachable == Collect(bundle, [entry], {})
  {
    var seen: set<string> := {};
    reachable := [];
    var stack := [entry];
    while stack != []
      invariant Collect(bundle, [entry], {}) == reachable + Collect(bundle, stack, seen)
      decreases bundle.Keys - seen, |stack|
    {
      var name := stack[|stack| - 1];
      stack := stack[..|stack| - 1];
      if name in seen { continue; }
      ghost var before := seen;
      seen := seen + {name};
      if name !in bundle {
        SmallerOrSame(bundle, before, name);
        continue;
      }
      reachable := reachable + [name];
      var imported := Imports(bundle[name]);
      ghost var rest := stack;
      for k := 0 to |imported|
        invariant stack == rest + imported[..k]
      {
        stack := stack + [imported[k]];
      }
      assert imported[..|imported|] == imported;
    }
  }

  /** The imports of every seen chunk are seen or about to be. */
  ghost predicate Frontier(bundle: Bundle, stack: seq<string>, seen: set<string>) {
    forall f, g | f in seen && f in bundle && g in Imports(bundle[f]) :: g in seen || g in stack
  }

  lemma {:induction false} CollectIsFresh(bundle: Bundle, stack: seq<string>, seen: set<string>)
    ensures var r := Collect(bundle, stack, seen);
            && (forall f | f in r :: f in bundle && f !in seen)
            && (forall i, j | 0 <= i < j < |r| :: r[i] != r[j])
    decreases bundle.Keys - seen, |stack|
  {
    if stack != [] {
      var name, rest := stack[|stack| - 1], stack[..|stack| - 1];
      if name in seen {
        CollectIsFresh(bundle, rest, seen);
      } else if name !in bundle {
        SmallerOrSame(bundle, seen, name);
        CollectIsFresh(bundle, rest, seen + {name});
      } else {
        CollectIsFresh(bundle, rest + Imports(bundle[name]), seen + {name});
        var tail := Collect(bundle, rest + Imports(bundle[name]), seen + {name});
        var r := Collect(bundle, stack, seen);
        assert r == [name] + tail;
        forall i, j | 0 <= i < j < |r| ensures r[i] != r[j] {
          assert r[j] == tail[j - 1];
        }
      }
    }
  }

  /** Whatever is collected hangs on the stack. */
  lemma {:induction false} CollectIsReachable(bundle: Bundle, stack: seq<string>, seen: set<string>, entry: string)
    requires forall f | f in stack :: Reaches(bundle, entry, f)
    ensures forall f | f in Collect(bundle, stack, seen) :: Reaches(bundle, entry, f)
    decreases bundle.Keys - seen, |stack|
  {
    if stack != [] {
      var name, rest := stack[|stack| - 1], stack[..|stack| - 1];
      if name in seen {
        CollectIsReachable(bundle, rest, seen, entry);
      } else if name !in bundle {
        SmallerOrSame(bundle, seen, name);
        CollectIsReachable(bundle, rest, seen + {name}, entry);
      } else {
        forall g | g in Imports(bundle[name]) ensures Reaches(bundle, entry, g) {
          assert name in stack;
          ReachOneFurther(bundle, entry, name, g);
        }
        CollectIsReachable(bundle, rest + Imports(bundle[name]), seen + {name}, entry);
      }
    }
  }

  lemma ReachOneFurther(bundle: Bundle, entry: string, name: string, next: string)
    requires Reaches(bundle, entry, name) && name in bundle && next in Imports(bundle[name])
    ensures Reaches(bundle, entry, next)
  {
    var path :| Path(bundle, path) && path[0] == entry && path[|path| - 1] == name;
    var longer := path + [next];
    assert Path(bundle, longer);
  }

  /** What was seen together with what is collected is closed under imports. */
  lemma {:induction false} CollectIsClosed(bundle: Bundle, stack: seq<string>, seen: set<string>)
    requires Frontier(bundle, stack, seen)
    ensures var r := Collect(bundle, stack, seen);
            && (forall f | f in stack && f in bundle :: f in seen || f in r)
            && (forall f, g | (f in seen || f in r) && f in bundle && g in Imports(bundle[f]) && g in bundle ::
                  g in seen || g in r)
    decreases bundle.Keys - seen, |stack|
  {
    if stack != [] {
      var name, rest := stack[|stack| - 1], stack[..|stack| - 1];
      assert stack == rest + [name];
      if name in seen {
        CollectIsClosed(bundle, rest, seen);
      } else if name !in bundle {
        SmallerOrSame(bundle, seen, name);
        CollectIsClosed(bundle, rest, seen + {name});
      } else {
        CollectIsClosed(bundle, rest + Imports(bundle[name]), seen + {name});
      }
    }
  }

  lemma {:induction false} PathStaysInside(bundle: Bundle, inside: seq<string>, path: seq<string>)
    requires Path(bundle, path) && path[0] in inside && path[|path| - 1] in bundle
    requires forall f, g | f in inside && f in bundle && g in Imports(bundle[f]) && g in bundle :: g in inside
    ensures path[|path| - 1] in inside
    decreases |path|
  {
    if |path| > 1 {
      var front := path[..|path| - 1];
      assert path[|path| - 2] in bundle;
      PathStaysInside(bundle, inside, front);
      assert path[|path| - 2 + 1] in Imports(bundle[path[|path| - 2]]);
    }
  }

  /** The worklist returns each reachable chunk of the bundle once and nothing else. */
  lemma CollectsReachableOnce(bundle: Bundle, entry: string)
    ensures var r := Collect(bundle, [entry], {});
            && (forall f :: f in r <==> f in bundle && Reaches(bundle, entry, f))
            && (forall i, j | 0 <= i < j < |r| :: r[i] != r[j])
  {
    var r := Collect(bundle, [entry], {});
    CollectIsFresh(bundle, [entry], {});
    assert Path(bundle, [entry]);
    CollectIsReachable(bundle, [entry], {}, entry);
    CollectIsClosed(bundle, [entry], {});
    forall f | f in bundle && Reaches(bundle, entry, f) ensures f in r {
      var path :| Path(bundle, path) && path[0] == entry && path[|path| - 1] == f;
      assert entry in bundle by { if |path| > 1 { assert Names(bundle, path[0], path[0 + 1]); } }
      PathStaysInside(bundle, r, path);
    }
  }

  // ---------------------------------------------------------------- the scan

  // Whether a chunk's code requires Electron.
  type Test = string -> bool

  predicate Offends(bundle: Bundle, test: Test, name: string) {
    name in bundle && test(bundle[name].code)
  }

  /** The first offending chunk of a list, without any memo. */
  function FirstOffender(bundle: Bundle, test: Test, chunks: seq<string>): (r: Option<string>)
  {
    if chunks == [] then None
    else if Offends(bundle, test, chunks[0]) then Some(chunks[0])
    else FirstOffender(bundle, test, chunks[1..])
  }

  lemma {:induction false} FirstOffenderIsFirst(bundle: Bundle, test: Test, chunks: seq<string>)
    ensures var r := FirstOffender(bundle, test, chunks);
            && (r == None <==> forall f | f in chunks :: !Offends(bundle, test, f))
            && (r.Some? ==> exists k :: 0 <= k < |chunks| && chunks[k] == r.value && Offends(bundle, test, r.value)
                              && forall j | 0 <= j < k :: !Offends(bundle, test, chunks[j]))
    decreases |chunks|
  {
    if chunks != [] {
      var rest := chunks[1..];
      assert chunks == [chunks[0]] + rest;
      FirstOffenderIsFirst(bundle, test, rest);
      var r := FirstOffender(bundle, test, chunks);
      if Offends(bundle, test, chunks[0]) {
        assert chunks[0] == r.value;
      } else if r.Some? {
        var k :| 0 <= k < |rest| && rest[k] == r.value && forall j | 0 <= j < k :: !Offends(bundle, test, rest[j]);
        assert chunks[k + 1] == r.value;
        forall j | 0 <= j < k + 1 ensures !Offends(bundle, test, chunks[j]) {
          if j > 0 {
            assert chunks[j] == rest[j - 1];
          }
        }
      }
    }
  }

  // The code last found clean, by chunk.
  type Memo = map<string, string>

  ghost predicate CleanMemo(test: Test, memo: Memo) {
    forall f | f in memo :: !test(memo[f])
  }

  /** The scan of one entry: skips what the memo says is clean, stops at the first offender. */
  method AssertNoElectronRequire(entry: string, bundle: Bundle, test: Test, memo: Memo)
    returns (offender: Option<string>, memo': Memo)
    requires CleanMemo(test, memo)
    ensures CleanMemo(test, memo')
    ensures offender == FirstOffender(bundle, test, Collect(bundle, [entry], {}))
  {
    memo' := memo;
    var chunks := CollectReachableChunks(entry, bundle);
    CollectIsFresh(bundle, [entry], {});
    for k := 0 to |chunks|
      invariant CleanMemo(test, memo')
      invariant FirstOffender(bundle, test, chunks) == FirstOffender(bundle, test, chunks[k..])
    {
      var name := chunks[k];
      assert chunks[k..][1..] == chunks[k + 1..];
      var code := bundle[name].code;
      if name in memo' && memo'[name] == code { continue; }
      if test(code) { return Some(name), memo'; }
      memo' := memo'[name := code];
    }
    offender := None;
  }

  datatype Runtime = PlainNode | WorkerThread

  datatype Guarded = Guarded(name: string, runtime: Runtime)

  datatype Failure = Failure(entry: Guarded, chunk: string)

  /** The guard over all entries in order, as if every entry were scanned afresh. */
  function GuardAfresh(
    guarded: seq<Guarded>, entries: map<string, string>, bundle: Bundle, test: Test): Option<Failure>
    decreases |guarded|
  {
    if guarded == [] then None
    else
      var g := guarded[0];
      var offender :=
        if g.name in entries then FirstOffender(bundle, test, Collect(bundle, [entries[g.name]], {})) else None;
      if offender.Some? then Some(Failure(g, offender.value))
      else GuardAfresh(guarded[1..], entries, bundle, test)
  }

  /** The guard as it runs, one memo for all: the same pass, or the same first entry and chunk.
      `entries` are the file names of the entries that are in the bundle. */
  method GuardAll(guarded: seq<Guarded>, entries: map<string, string>, bundle: Bundle, test: Test)
    returns (failure: Option<Failure>)
    ensures failure == GuardAfresh(guarded, entries, bundle, test)
  {
    var memo: Memo := map[];
    for k := 0 to |guarded|
      invariant CleanMemo(test, memo)
      invariant GuardAfresh(guarded, entries, bundle, test) == GuardAfresh(guarded[k..], entries, bundle, test)
    {
      var g := guarded[k];
      assert guarded[k..][1..] == guarded[k + 1..];
      if g.name in entries {
        var offender;
        offender, memo := AssertNoElectronRequire(entries[g.name], bundle, test, memo);
        if offender.Some? { return Some(Failure(g, offender.value)); }
      }
    }
    failure := None;
  }

  /** Some guarded entry of the bundle reaches, through any imports, a chunk that needs Electron. */
  ghost predicate Leaks(g: Guarded, entries: map<string, string>, bundle: Bundle, test: Test) {
    && g.name in entries
    && exists f :: f in bundle && Reaches(bundle, entries[g.name], f) && test(bundle[f].code)
  }

  /** The guard passes exactly when no guarded entry leaks; otherwise it names the first that
      does, and an offending chunk that entry reaches. */
  lemma {:induction false} GuardIsExact(
    guarded: seq<Guarded>, entries: map<string, string>, bundle: Bundle, test: Test)
    ensures var r := GuardAfresh(guarded, entries, bundle, test);
            && (r == None <==> forall g | g in guarded :: !Leaks(g, entries, bundle, test))
            && (r.Some? ==>
                  && Leaks(r.value.entry, entries, bundle, test)
                  && r.value.chunk in bundle && test(bundle[r.value.chunk].code)
                  && Reaches(bundle, entries[r.value.entry.name], r.value.chunk)
                  && exists k :: 0 <= k < |guarded| && guarded[k] == r.value.entry
                       && forall j | 0 <= j < k :: !Leaks(guarded[j], entries, bundle, test))
    decreases |guarded|
  {
    if guarded != [] {
      var g, rest := guarded[0], guarded[1..];
      assert guarded == [g] + rest;
      GuardIsExact(rest, entries, bundle, test);
      if g.name in entries {
        EntryLeaks(g, entries, bundle, test);
      }
      var r := GuardAfresh(guarded, entries, bundle, test);
      if r.Some? && !Leaks(g, entries, bundle, test) {
        assert r == GuardAfresh(rest, entries, bundle, test);
        var k :| 0 <= k < |rest| && rest[k] == r.value.entry
                 && forall j | 0 <= j < k :: !Leaks(rest[j], entries, bundle, test);
        assert guarded[k + 1] == r.value.entry;
        forall j | 0 <= j < k + 1 ensures !Leaks(guarded[j], entries, bundle, test) {
          if j > 0 {
            assert guarded[j] == rest[j - 1];
          }
        }
      }
    }
  }

  lemma EntryLeaks(g: Guarded, entries: map<string, string>, bundle: Bundle, test: Test)
    requires g.name in entries
    ensures var offender := FirstOffender(bundle, test, Collect(bundle, [entries[g.name]], {}));
            && (offender.Some? <==> Leaks(g, entries, bundle, test))
            && (offender.Some? ==>
                  && offender.value in bundle && test(bundle[offender.value].code)
                  && Reaches(bundle, entries[g.name], offender.value))
  {
    var chunks := Collect(bundle, [entries[g.name]], {});
    CollectsReachableOnce(bundle, entries[g.name]);
    FirstOffenderIsFirst(bundle, test, chunks);
  }
}
