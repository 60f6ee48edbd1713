/** The directory walk of `find_all`: a stack of directories is popped until
    empty; each listed child directory is pushed and each `.desktop` file is
    parsed and turned into a result. The filesystem is an in-memory tree. */
module Discovery {
  import opened Wrappers
  import opened Program

  /** A node of the directory tree as the walk sees it. */
  datatype Node =
    | Dir(children: seq<Node>)                  // a directory `read_dir` can list
    | Unlistable                                // a directory `read_dir` fails on
    | BrokenEntry                               // a listing item that is an error
    | File(name: string, parsed: Option<Entry>) // a file; `parsed` is None when `parse_entry` fails

  /** The index of the last `.` among the first `n` characters of `s`. */
  function LastDotBefore(s: string, n: nat): (r: Option<nat>)
    requires n <= |s|
    ensures r.None? <==> forall j :: 0 <= j < n ==> s[j] != '.'
    ensures r.Some? ==> r.value < n && s[r.value] == '.'
                        && forall j :: r.value < j < n ==> s[j] != '.'
  {
    if n == 0 then None
    else if s[n - 1] == '.' then Some(n - 1)
    else LastDotBefore(s, n - 1)
  }

  /** The index of the last `.` in `s`. */
  function LastDot(s: string): Option<nat> {
    LastDotBefore(s, |s|)
  }

  /** `Path::extension` of a file name: the text after the last `.`, unless
      there is none, the only one starts the name, or the name is `..`. */
  function Extension(fileName: string): (ext: Option<string>)
    // none exactly for `..` and when no `.` follows the first character
    ensures ext.None? <==> fileName == ".." || forall j :: 0 < j < |fileName| ==> fileName[j] != '.'
    // otherwise the dot-free text after some later `.`
    ensures ext.Some? ==> '.' !in ext.value
                          && exists i :: 0 < i < |fileName| && fileName[i] == '.' && ext.value == fileName[i + 1..]
  {
    if fileName == ".." then None
    else match LastDot(fileName)
    case None => None
    case Some(i) => if i == 0 then None else Some(fileName[i + 1..])
  }

  /** A file is a desktop entry exactly when its name is a non-empty stem
      followed by `.desktop`. */
  lemma DesktopExtension(fileName: string)
    ensures Extension(fileName) == Some("desktop")
        <==> |fileName| > 8 && fileName[|fileName| - 8..] == ".desktop"
  {
    var n := |fileName|;
    if n > 8 && fileName[n - 8..] == ".desktop" {
      assert fileName[n - 8] == '.';
      assert forall j :: n - 8 < j < n ==> fileName[j] == fileName[n - 8..][j - (n - 8)];
      var r := LastDot(fileName);
      assert r.value == n - 8;
      assert fileName[n - 7..] == fileName[n - 8..][1..];
    }
    if Extension(fileName) == Some("desktop") {
      var i := LastDot(fileName).value;
      assert fileName[i + 1..] == "desktop";
      assert n == i + 8;
      assert fileName[i] == '.';
      assert fileName[n - 8..] == [fileName[i]] + fileName[i + 1..];
    }
  }

  /** What processing one file comes to: only `.desktop` files that parse
      are looked at. */
  function FileOutcome(name: string, parsed: Option<Entry>): (x: Extraction)
    ensures x != Skip ==> Extension(name) == Some("desktop") && parsed.Some?
  {
    if Extension(name) == Some("desktop") then
      match parsed
      case None => Skip
      case Some(e) => ExtractEntry(e)
    else Skip
  }

  /** The outcomes of all files below a listing, at any depth. */
  function Contents(cs: seq<Node>): seq<Extraction>
    decreases cs
  {
    if cs == [] then []
    else
      (match cs[0]
       case Dir(sub) => Contents(sub)
       case Unlistable => []
       case BrokenEntry => []
       case File(name, parsed) => [FileOutcome(name, parsed)])
      + Contents(cs[1..])
  }

  /** What popping `n` off the stack eventually yields: only a listable
      directory is looked into. */
  function Listing(n: Node): seq<Extraction> {
    if n.Dir? then Contents(n.children) else []
  }

  /** The outcomes still to come from a stack of directories. */
  function Pending(stack: seq<Node>): seq<Extraction> {
    if stack == [] then [] else Pending(stack[..|stack| - 1]) + Listing(stack[|stack| - 1])
  }

  /** The results among a sequence of outcomes, in order. */
  function Emitted(xs: seq<Extraction>): (rs: seq<ProgramResult>)
    ensures |rs| <= |xs|
  {
    if xs == [] then []
    else (if xs[0].Emit? then [xs[0].result] else []) + Emitted(xs[1..])
  }

  /** Every outcome that is a result contributes it once. */
  lemma {:induction false} EmittedCount(xs: seq<Extraction>, r: ProgramResult)
    ensures multiset(Emitted(xs))[r] == multiset(xs)[Emit(r)]
  {
    if xs != [] {
      EmittedCount(xs[1..], r);
      assert xs == [xs[0]] + xs[1..];
      assert multiset(xs) == multiset([xs[0]]) + multiset(xs[1..]);
      var h := if xs[0].Emit? then [xs[0].result] else [];
      assert Emitted(xs) == h + Emitted(xs[1..]);
      assert multiset(Emitted(xs)) == multiset(h) + multiset(Emitted(xs[1..]));
      assert multiset(h)[r] == multiset([xs[0]])[Emit(r)];
    }
  }

  /** Reordering the outcomes reorders the results only. */
  lemma EmittedPermutation(xs: seq<Extraction>, ys: seq<Extraction>)
    requires multiset(xs) == multiset(ys)
    ensures multiset(Emitted(xs)) == multiset(Emitted(ys))
  {
    forall r ensures multiset(Emitted(xs))[r] == multiset(Emitted(ys))[r] {
      EmittedCount(xs, r);
      EmittedCount(ys, r);
    }
  }

  lemma {:induction false} PendingAppend(stack: seq<Node>, n: Node)
    ensures Pending(stack + [n]) == Pending(stack) + Listing(n)
  {
    assert (stack + [n])[..|stack|] == stack;
  }

  /** The outcomes a listing yields, first child first. */
  lemma ContentsStep(cs: seq<Node>, i: nat)
    requires i < |cs|
    ensures Contents(cs[i..]) == (match cs[i]
                                  case Dir(sub) => Contents(sub)
                                  case Unlistable => []
                                  case BrokenEntry => []
                                  case File(name, parsed) => [FileOutcome(name, parsed)])
                                 + Contents(cs[i + 1..])
  {
    assert cs[i..][0] == cs[i];
    assert cs[i..][1..] == cs[i + 1..];
  }

  lemma SizeAllAppend(ns: seq<Node>, n: Node)
    ensures SizeAll(ns + [n]) == SizeAll(ns) + Size(n)
  {
    assert (ns + [n])[..|ns|] == ns;
  }

  /** Size of a tree, for the termination of the walk. */
  function Size(n: Node): nat {
    if n.Dir? then 1 + SizeAll(n.children) else 1
  }

  function SizeAll(ns: seq<Node>): nat
    decreases ns
  {
    if ns == [] then 0 else SizeAll(ns[..|ns| - 1]) + Size(ns[|ns| - 1])
  }

  /** One `entry` of a listing: a directory is pushed onto the stack, a
      `.desktop` file is processed, anything else is passed over. Fails with
      the id of an action lacking `Exec`. */
  method VisitEntry(entry: Node, paths: seq<Node>, found: seq<ProgramResult>,
                    ghost processed: seq<Extraction>)
    returns (paths': seq<Node>, found': seq<ProgramResult>, ghost processed': seq<Extraction>,
             failure: Option<string>)
    requires found == Emitted(processed)
    requires forall x :: x in processed ==> !x.Abort?
    ensures failure.Some? ==> Abort(failure.value) in Contents([entry])
    ensures failure.None? ==> found' == Emitted(processed')
    ensures failure.None? ==> forall x :: x in processed' ==> !x.Abort?
    ensures failure.None? ==>
              multiset(processed') + multiset(Pending(paths'))
              == multiset(processed) + multiset(Pending(paths)) + multiset(Contents([entry]))
    ensures SizeAll(paths') <= SizeAll(paths) + Size(entry)
  {
    paths', found', processed', failure := paths, found, processed, None;
    match entry {
      case BrokenEntry =>
        ContentsSingle(entry);
      case Unlistable =>
        PushAccount(processed, paths, entry);
        paths' := paths + [entry];
      case Dir(_) =>
        PushAccount(processed, paths, entry);
        paths' := paths + [entry];
      case File(name, parsed) =>
        var outcome := FileOutcome(name, parsed);
        FileAccount(processed, paths, entry);
        found', processed', failure := ProcessOutcome(outcome, found, processed);
    }
  }

  /** Acting on the outcome of one file: a result is collected, an action
      lacking `Exec` is reported, anything else is passed over. */
  method ProcessOutcome(outcome: Extraction, found: seq<ProgramResult>, ghost processed: seq<Extraction>)
    returns (found': seq<ProgramResult>, ghost processed': seq<Extraction>, failure: Option<string>)
    requires found == Emitted(processed)
    ensures failure.Some? <==> outcome.Abort?
    ensures failure.Some? ==> failure.value == outcome.action
    ensures failure.None? ==> processed' == processed + [outcome] && found' == Emitted(processed')
  {
    found', processed', failure := found, processed, None;
    if outcome.Abort? {
      return found', processed', Some(outcome.action);
    }
    EmittedAppend(processed, outcome);
    processed' := processed + [outcome];
    if outcome.Emit? {
      found' := found + [outcome.result];
    }
  }

  /** Pushing a directory moves its outcomes from the listing to the stack. */
  lemma PushAccount(processed: seq<Extraction>, paths: seq<Node>, entry: Node)
    requires entry.Dir? || entry.Unlistable?
    ensures multiset(processed) + multiset(Pending(paths + [entry]))
            == multiset(processed) + multiset(Pending(paths)) + multiset(Contents([entry]))
    ensures SizeAll(paths + [entry]) == SizeAll(paths) + Size(entry)
  {
    ContentsSingle(entry);
    PendingAppend(paths, entry);
    SizeAllAppend(paths, entry);
  }

  /** Processing a file moves its one outcome from the listing to the
      processed outcomes. */
  lemma FileAccount(processed: seq<Extraction>, paths: seq<Node>, entry: Node)
    requires entry.File?
    ensures Contents([entry]) == [FileOutcome(entry.name, entry.parsed)]
    ensures multiset(processed + [FileOutcome(entry.name, entry.parsed)]) + multiset(Pending(paths))
            == multiset(processed) + multiset(Pending(paths)) + multiset(Contents([entry]))
  {
    ContentsSingle(entry);
  }

  /** The outcomes of a single listing item. */
  lemma ContentsSingle(n: Node)
    ensures Contents([n]) == match n
                             case Dir(sub) => Contents(sub)
                             case Unlistable => []
                             case BrokenEntry => []
                             case File(name, parsed) => [FileOutcome(name, parsed)]
  {
    assert [n][1..] == [];
  }

  /** The `for entry in dir_iter` loop of `find_all` over the listing of one
      directory, entry by entry. Stops with the id of an action lacking
      `Exec` as soon as one is met. */
  method ScanDirectory(children: seq<Node>, searchPaths: seq<Node>, found: seq<ProgramResult>,
                       ghost processed: seq<Extraction>)
    returns (paths: seq<Node>, found': seq<ProgramResult>, ghost processed': seq<Extraction>,
             failure: Option<string>)
    requires found == Emitted(processed)
    requires forall x :: x in processed ==> !x.Abort?
    ensures failure.Some? ==>
              Abort(failure.value) in multiset(processed) + multiset(Pending(searchPaths)) + multiset(Contents(children))
    ensures failure.None? ==> found' == Emitted(processed')
    ensures failure.None? ==> forall x :: x in processed' ==> !x.Abort?
    ensures failure.None? ==>
              multiset(processed') + multiset(Pending(paths))
              == multiset(processed) + multiset(Pending(searchPaths)) + multiset(Contents(children))
    ensures SizeAll(paths) <= SizeAll(searchPaths) + SizeAll(children)
  {
    paths, found', processed', failure := searchPaths, found, processed, None;
    ghost var total := multiset(processed) + multiset(Pending(searchPaths)) + multiset(Contents(children));
    assert children[0..] == children;
    for i := 0 to |children|
      invariant found' == Emitted(processed')
      invariant forall x :: x in processed' ==> !x.Abort?
      invariant multiset(processed') + multiset(Pending(paths)) + multiset(Contents(children[i..])) == total
      invariant SizeAll(paths) <= SizeAll(searchPaths) + SizeAll(children[..i])
    {
      ContentsSplit(children, i);
      SizeAllStep(children, i);
      ghost var before := multiset(processed') + multiset(Pending(paths));
      var failed;
      paths, found', processed', failed := VisitEntry(children[i], paths, found', processed');
      if failed.Some? {
        AbortInListing(before, Contents([children[i]]), Contents(children[i + 1..]), total, Abort(failed.value));
        SizeAllMonotone(children, i + 1);
        return paths, found', processed', failed;
      }
      MoveAccounted(before, multiset(processed') + multiset(Pending(paths)),
                    multiset(Contents([children[i]])), multiset(Contents(children[i + 1..])), total);
    }
    assert children[..|children|] == children;
  }

  /** Bookkeeping of one loop step: the outcomes of an item move from the
      listing to the processed outcomes and the stack. */
  lemma MoveAccounted(before: multiset<Extraction>, after: multiset<Extraction>,
                      item: multiset<Extraction>, rest: multiset<Extraction>, total: multiset<Extraction>)
    requires before + (item + rest) == total
    requires after == before + item
    ensures after + rest == total
  {
  }

  /** An outcome of the item being visited is one of the outcomes accounted for. */
  lemma AbortInListing(before: multiset<Extraction>, item: seq<Extraction>, rest: seq<Extraction>,
                       total: multiset<Extraction>, x: Extraction)
    requires before + multiset(item + rest) == total
    requires x in item
    ensures x in total
  {
    assert x in item + rest;
  }

  /** A listing splits into its item at `i` and the items after it. */
  lemma ContentsSplit(cs: seq<Node>, i: nat)
    requires i < |cs|
    ensures Contents(cs[i..]) == Contents([cs[i]]) + Contents(cs[i + 1..])
  {
    ContentsStep(cs, i);
    ContentsSingle(cs[i]);
  }

  lemma SizeAllStep(ns: seq<Node>, i: nat)
    requires i < |ns|
    ensures SizeAll(ns[..i + 1]) == SizeAll(ns[..i]) + Size(ns[i])
  {
    assert ns[..i + 1][..i] == ns[..i];
  }

  lemma {:induction false} SizeAllMonotone(ns: seq<Node>, i: nat)
    requires i <= |ns|
    ensures SizeAll(ns[..i]) <= SizeAll(ns)
    decreases |ns|
  {
    if i < |ns| {
      SizeAllMonotone(ns[..|ns| - 1], i);
      assert ns[..|ns| - 1][..i] == ns[..i];
    } else {
      assert ns[..i] == ns;
    }
  }

  /** `ProgramResult::find_all` over the roots `roots` (the stack starts as
      the roots and is popped from its end). The walk succeeds exactly when
      no reachable desktop entry lists an action without `Exec`; it then
      finds every result of every reachable entry, in some order. */
  method FindAll(roots: seq<Node>) returns (res: Result<seq<ProgramResult>, string>)
    ensures res.Success? <==> forall x :: x in Pending(roots) ==> !x.Abort?
    ensures res.Failure? ==> Abort(res.error) in Pending(roots)
    ensures res.Success? ==> multiset(res.value) == multiset(Emitted(Pending(roots)))
  {
    var searchPaths := roots;
    var found: seq<ProgramResult> := [];
    ghost var processed: seq<Extraction> := [];
    while |searchPaths| != 0
      invariant found == Emitted(processed)
      invariant forall x :: x in processed ==> !x.Abort?
      invariant multiset(processed) + multiset(Pending(searchPaths)) == multiset(Pending(roots))
      decreases SizeAll(searchPaths)
    {
      ghost var stack := searchPaths;
      var path := searchPaths[|searchPaths| - 1];
      searchPaths := searchPaths[..|searchPaths| - 1];
      PopStep(stack);
      if !path.Dir? {
        continue;
      }
      var paths, found', failure;
      ghost var processed';
      paths, found', processed', failure := ScanDirectory(path.children, searchPaths, found, processed);
      if failure.Some? {
        AbortReachable(processed, stack, roots, Abort(failure.value));
        return Failure(failure.value);
      }
      searchPaths, found, processed := paths, found', processed';
    }
    WalkComplete(processed, found, roots);
    return Success(found);
  }

  /** Popping the last directory off the stack. */
  lemma PopStep(stack: seq<Node>)
    requires |stack| > 0
    ensures Pending(stack) == Pending(stack[..|stack| - 1]) + Listing(stack[|stack| - 1])
    ensures SizeAll(stack) == SizeAll(stack[..|stack| - 1]) + Size(stack[|stack| - 1])
  {
  }

  /** Once the stack is empty, every outcome of the roots has been processed. */
  lemma WalkComplete(processed: seq<Extraction>, found: seq<ProgramResult>, roots: seq<Node>)
    requires found == Emitted(processed)
    requires forall x :: x in processed ==> !x.Abort?
    requires multiset(processed) + multiset(Pending([])) == multiset(Pending(roots))
    ensures forall x :: x in Pending(roots) ==> !x.Abort?
    ensures multiset(found) == multiset(Emitted(Pending(roots)))
  {
    assert multiset(processed) == multiset(Pending(roots));
    forall x | x in Pending(roots) ensures !x.Abort? {
      assert x in multiset(processed);
    }
    EmittedPermutation(processed, Pending(roots));
  }

  /** An abort met while scanning a popped directory is an outcome of the roots. */
  lemma AbortReachable(processed: seq<Extraction>, stack: seq<Node>, roots: seq<Node>, x: Extraction)
    requires multiset(processed) + multiset(Pending(stack)) == multiset(Pending(roots))
    requires x.Abort? && forall y :: y in processed ==> !y.Abort?
    requires |stack| > 0
    requires x in multiset(processed) + multiset(Pending(stack[..|stack| - 1]))
                  + multiset(Listing(stack[|stack| - 1]))
    ensures x in Pending(roots)
  {
    assert x in multiset(Pending(roots));
  }

  lemma {:induction false} EmittedAppend(xs: seq<Extraction>, x: Extraction)
    ensures Emitted(xs + [x]) == Emitted(xs) + Emitted([x])
  {
    if xs == [] {
      assert xs + [x] == [x];
    } else {
      var ys := xs + [x];
      assert ys[0] == xs[0];
      assert ys[1..] == xs[1..] + [x];
      EmittedAppend(xs[1..], x);
      var h := if xs[0].Emit? then [xs[0].result] else [];
      calc {
        Emitted(ys);
        h + Emitted(xs[1..] + [x]);
        h + (Emitted(xs[1..]) + Emitted([x]));
        (h + Emitted(xs[1..])) + Emitted([x]);
      }
    }
  }
}
