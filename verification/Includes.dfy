/**
 * Configuration files that include others. The file system is a finite map from absolute
 * paths to files; an include names the files that its pattern matches, in sorted order,
 * and whether the pattern has wildcards.
 */
module Includes {
  import opened Results

  type Path = string

  datatype Item = Line(text: string) | Include(files: seq<Path>, wildcard: bool)

  type FileSystem = map<Path, seq<Item>>

  datatype IncludeError = Recursive(path: Path) | NotFound | Unreadable(path: Path)

  // ----- Specification: parsing under a guard of visited files -----

  /** The lines that the items of a file hand to the parser, while `visited` is being read. */
  function ParseItems(fs: FileSystem, items: seq<Item>, visited: set<Path>): Result<seq<string>, IncludeError>
    decreases |fs.Keys - visited|, 2, |items|
  {
    if items == [] then Success([])
    else
      var head :- match items[0]
        case Line(text) => Success([text])
        case Include(files, wildcard) =>
          if files == [] && !wildcard then Failure(NotFound) else ParseFiles(fs, files, visited);
      var rest :- ParseItems(fs, items[1..], visited);
      Success(head + rest)
  }

  function ParseFiles(fs: FileSystem, files: seq<Path>, visited: set<Path>): Result<seq<string>, IncludeError>
    decreases |fs.Keys - visited|, 1, |files|
  {
    if files == [] then Success([])
    else if files[0] !in fs then Failure(Unreadable(files[0]))
    else
      var first :- ParseFile(fs, files[0], visited);
      var rest :- ParseFiles(fs, files[1..], visited);
      Success(first + rest)
  }

  function ParseFile(fs: FileSystem, path: Path, visited: set<Path>): Result<seq<string>, IncludeError>
    requires path in fs
    decreases |fs.Keys - visited|, 0
  {
    if path in visited then Failure(Recursive(path))
    else
      Shrinks(fs, path, visited);
      ParseItems(fs, fs[path], visited + {path})
  }

  lemma Shrinks(fs: FileSystem, path: Path, visited: set<Path>)
    requires path in fs && path !in visited
    ensures |fs.Keys - (visited + {path})| < |fs.Keys - visited|
  {
    var left := fs.Keys - visited;
    assert path in left;
    assert fs.Keys - (visited + {path}) == left - {path};
  }

  // ----- Reference: plain recursive inlining, to a given depth -----

  function InlineItems(fs: FileSystem, items: seq<Item>, depth: nat): Option<seq<string>>
    decreases depth, 1, |items|
  {
    if items == [] then Some([])
    else
      var head := match items[0]
        case Line(text) => Some([text])
        case Include(files, wildcard) =>
          if files == [] && !wildcard then None else InlineFiles(fs, files, depth);
      var rest := InlineItems(fs, items[1..], depth);
      if head.Some? && rest.Some? then Some(head.value + rest.value) else None
  }

  function InlineFiles(fs: FileSystem, files: seq<Path>, depth: nat): Option<seq<string>>
    decreases depth, 0, |files|
  {
    if files == [] then Some([])
    else if depth == 0 || files[0] !in fs then None
    else
      var first := InlineItems(fs, fs[files[0]], depth - 1);
      var rest := InlineFiles(fs, files[1..], depth);
      if first.Some? && rest.Some? then Some(first.value + rest.value) else None
  }

  /** A file inlines completely within some depth. */
  predicate Inlines(fs: FileSystem, path: Path, depth: int) {
    path in fs && depth >= 0 && InlineItems(fs, fs[path], depth).Some?
  }

  // ----- Parsing agrees with inlining -----

  /** What the guard lets through is what inlining gives, at any depth that covers the unvisited files. */
  lemma {:induction false} ParsedItemsInline(fs: FileSystem, items: seq<Item>, visited: set<Path>, depth: nat)
    requires ParseItems(fs, items, visited).Success? && |fs.Keys - visited| <= depth
    ensures InlineItems(fs, items, depth) == Some(ParseItems(fs, items, visited).value)
    decreases |fs.Keys - visited|, 2, |items|
  {
    if items != [] {
      if items[0].Include? {
        ParsedFilesInline(fs, items[0].files, visited, depth);
      }
      ParsedItemsInline(fs, items[1..], visited, depth);
    }
  }

  lemma {:induction false} ParsedFilesInline(fs: FileSystem, files: seq<Path>, visited: set<Path>, depth: nat)
    requires ParseFiles(fs, files, visited).Success? && |fs.Keys - visited| <= depth
    ensures InlineFiles(fs, files, depth) == Some(ParseFiles(fs, files, visited).value)
    decreases |fs.Keys - visited|, 1, |files|
  {
    if files != [] {
      Shrinks(fs, files[0], visited);
      ParsedItemsInline(fs, fs[files[0]], visited + {files[0]}, depth - 1);
      ParsedFilesInline(fs, files[1..], visited, depth);
    }
  }

  /** More depth does not change what inlines. */
  lemma {:induction false} DeeperItems(fs: FileSystem, items: seq<Item>, depth: nat, depth': nat)
    requires InlineItems(fs, items, depth).Some? && depth <= depth'
    ensures InlineItems(fs, items, depth') == InlineItems(fs, items, depth)
    decreases depth, 1, |items|
  {
    if items != [] {
      if items[0].Include? {
        DeeperFiles(fs, items[0].files, depth, depth');
      }
      DeeperItems(fs, items[1..], depth, depth');
    }
  }

  lemma {:induction false} DeeperFiles(fs: FileSystem, files: seq<Path>, depth: nat, depth': nat)
    requires InlineFiles(fs, files, depth).Some? && depth <= depth'
    ensures InlineFiles(fs, files, depth') == InlineFiles(fs, files, depth)
    decreases depth, 0, |files|
  {
    if files != [] {
      DeeperItems(fs, fs[files[0]], depth - 1, depth' - 1);
      DeeperFiles(fs, files[1..], depth, depth');
    }
  }

  /** The files being read need more depth than is left for what they include. */
  ghost predicate Outside(fs: FileSystem, visited: set<Path>, depth: int) {
    forall v | v in visited :: !Inlines(fs, v, depth)
  }

  /** The least depth at which a file inlines. */
  lemma {:induction false} LeastDepth(fs: FileSystem, path: Path, depth: nat) returns (least: nat)
    requires Inlines(fs, path, depth)
    ensures least <= depth && Inlines(fs, path, least) && !Inlines(fs, path, least - 1)
  {
    if Inlines(fs, path, depth - 1) {
      least := LeastDepth(fs, path, depth - 1);
    } else {
      least := depth;
    }
  }

  /** Whatever inlines gets past the guard. */
  lemma {:induction false} InlinedItemsParse(fs: FileSystem, items: seq<Item>, visited: set<Path>, depth: nat)
    requires InlineItems(fs, items, depth).Some? && Outside(fs, visited, depth - 1)
    ensures ParseItems(fs, items, visited) == Success(InlineItems(fs, items, depth).value)
    decreases depth, 2, |items|
  {
    if items != [] {
      if items[0].Include? {
        InlinedFilesParse(fs, items[0].files, visited, depth);
      }
      InlinedItemsParse(fs, items[1..], visited, depth);
    }
  }

  lemma {:induction false} InlinedFilesParse(fs: FileSystem, files: seq<Path>, visited: set<Path>, depth: nat)
    requires InlineFiles(fs, files, depth).Some? && Outside(fs, visited, depth - 1)
    ensures ParseFiles(fs, files, visited) == Success(InlineFiles(fs, files, depth).value)
    decreases depth, 1, |files|
  {
    if files != [] {
      InlinedFileParses(fs, files[0], visited, depth - 1);
      InlinedFilesParse(fs, files[1..], visited, depth);
    }
  }

  lemma InlinedFileParses(fs: FileSystem, path: Path, visited: set<Path>, depth: nat)
    requires Inlines(fs, path, depth) && Outside(fs, visited, depth)
    ensures ParseFile(fs, path, visited) == Success(InlineItems(fs, fs[path], depth).value)
    decreases depth, 3
  {
    var least := LeastDepth(fs, path, depth);
    DeeperItems(fs, fs[path], least, depth);
    var below: int := least as int - 1;
    forall v | v in visited + {path} ensures !Inlines(fs, v, below) {
      if v in visited && Inlines(fs, v, below) {
        DeeperItems(fs, fs[v], below, depth);
      }
    }
    InlinedItemsParse(fs, fs[path], visited + {path}, least);
  }

  /**
   * The guard against recursive includes refuses exactly what plain inlining could never
   * finish, and changes nothing else: same lines, same order.
   */
  lemma ParsingIsInlining(fs: FileSystem, root: Path)
    requires root in fs
    ensures ParseFile(fs, root, {}).Success? <==> exists depth :: Inlines(fs, root, depth)
    ensures forall depth | Inlines(fs, root, depth) ::
              ParseFile(fs, root, {}) == Success(InlineItems(fs, fs[root], depth).value)
  {
    hide ParseItems, InlineItems;
    if ParseFile(fs, root, {}).Success? {
      ParsedItemsInline(fs, fs[root], {root}, |fs.Keys - {root}|);
      assert Inlines(fs, root, |fs.Keys - {root}|);
    }
    forall depth | Inlines(fs, root, depth)
      ensures ParseFile(fs, root, {}) == Success(InlineItems(fs, fs[root], depth).value)
    {
      InlinedFileParses(fs, root, {}, depth);
    }
  }

  // ----- Include chains -----

  /** The file `a` includes the file `b`. */
  ghost predicate Edge(fs: FileSystem, a: Path, b: Path) {
    a in fs && exists k :: 0 <= k < |fs[a]| && fs[a][k].Include? && b in fs[a][k].files
  }

  /** An include of the file names nothing that can be read. */
  ghost predicate Broken(fs: FileSystem, a: Path) {
    a in fs && exists k :: 0 <= k < |fs[a]| && BrokenItem(fs, fs[a][k])
  }

  ghost predicate BrokenItem(fs: FileSystem, item: Item) {
    item.Include? && ((item.files == [] && !item.wildcard) || exists f :: f in item.files && f !in fs)
  }

  ghost predicate Chain(fs: FileSystem, c: seq<Path>) {
    c != [] && c[0] in fs && forall i | 0 <= i < |c| - 1 :: Edge(fs, c[i], c[i + 1])
  }

  /** A chain that comes back to a file on it. */
  ghost predicate Revisits(c: seq<Path>) {
    exists i :: 0 <= i < |c| - 1 && c[i] == c[|c| - 1]
  }

  /** A chain that comes back to a file on it, or ends in a broken include. */
  ghost predicate Bad(fs: FileSystem, c: seq<Path>) {
    Chain(fs, c) && (Revisits(c) || Broken(fs, c[|c| - 1]))
  }

  lemma {:induction false} InlinedItem(fs: FileSystem, items: seq<Item>, depth: nat, k: nat)
    requires InlineItems(fs, items, depth).Some? && k < |items| && items[k].Include?
    ensures items[k].files != [] || items[k].wildcard
    ensures InlineFiles(fs, items[k].files, depth).Some?
    decreases k
  {
    if k > 0 {
      InlinedItem(fs, items[1..], depth, k - 1);
    }
  }

  lemma {:induction false} InlinedFile(fs: FileSystem, files: seq<Path>, depth: nat, f: Path)
    requires InlineFiles(fs, files, depth).Some? && f in files
    ensures depth > 0 && Inlines(fs, f, depth - 1)
    decreases |files|
  {
    if f != files[0] {
      InlinedFile(fs, files[1..], depth, f);
    }
  }

  /** An include needs less depth than the file it is in. */
  lemma EdgeDescends(fs: FileSystem, a: Path, b: Path, depth: nat)
    requires Inlines(fs, a, depth) && Edge(fs, a, b)
    ensures depth > 0 && Inlines(fs, b, depth - 1)
  {
    var k :| 0 <= k < |fs[a]| && fs[a][k].Include? && b in fs[a][k].files;
    InlinedItem(fs, fs[a], depth, k);
    InlinedFile(fs, fs[a][k].files, depth, b);
  }

  lemma {:induction false} ChainDescends(fs: FileSystem, c: seq<Path>, depth: nat, i: nat)
    requires Chain(fs, c) && Inlines(fs, c[0], depth) && i < |c|
    ensures i <= depth && Inlines(fs, c[i], depth - i)
  {
    if i > 0 {
      ChainDescends(fs, c, depth, i - 1);
      EdgeDescends(fs, c[i - 1], c[i], depth - (i - 1));
    }
  }

  lemma BrokenNeverInlines(fs: FileSystem, a: Path, depth: nat)
    requires Broken(fs, a)
    ensures !Inlines(fs, a, depth)
  {
    var k :| 0 <= k < |fs[a]| && BrokenItem(fs, fs[a][k]);
    if InlineItems(fs, fs[a], depth).Some? {
      InlinedItem(fs, fs[a], depth, k);
      var f :| f in fs[a][k].files && f !in fs;
      InlinedFile(fs, fs[a][k].files, depth, f);
    }
  }

  /** Going round a cycle would need ever less depth. */
  lemma {:induction false} CycleNeverInlines(fs: FileSystem, c: seq<Path>, depth: nat)
    requires Chain(fs, c) && |c| > 1 && c[0] == c[|c| - 1]
    ensures !Inlines(fs, c[0], depth)
    decreases depth
  {
    if Inlines(fs, c[0], depth) {
      ChainDescends(fs, c, depth, |c| - 1);
      CycleNeverInlines(fs, c, depth - (|c| - 1));
    }
  }

  lemma SuffixChain(fs: FileSystem, c: seq<Path>, i: nat)
    requires Chain(fs, c) && i < |c| && c[i] in fs
    ensures Chain(fs, c[i..])
  {
    var d := c[i..];
    forall k | 0 <= k < |d| - 1 ensures Edge(fs, d[k], d[k + 1]) {
      assert Edge(fs, c[i + k], c[i + k + 1]);
    }
  }

  lemma BadChainNeverInlines(fs: FileSystem, c: seq<Path>, depth: nat)
    requires Bad(fs, c)
    ensures !Inlines(fs, c[0], depth)
  {
    var n := |c| - 1;
    if Inlines(fs, c[0], depth) {
      ChainDescends(fs, c, depth, n);
      if Broken(fs, c[n]) {
        BrokenNeverInlines(fs, c[n], depth - n);
      } else {
        var i :| 0 <= i < n && c[i] == c[n];
        ChainDescends(fs, c, depth, i);
        SuffixChain(fs, c, i);
        CycleNeverInlines(fs, c[i..], depth - i);
      }
    }
  }

  /** The files being read are a chain from the root down to the current file. */
  ghost predicate Reading(fs: FileSystem, c: seq<Path>, visited: set<Path>) {
    Chain(fs, c) && c[|c| - 1] in fs && forall v :: v in visited <==> v in c
  }

  lemma Extend(fs: FileSystem, c: seq<Path>, f: Path)
    requires Chain(fs, c) && Edge(fs, c[|c| - 1], f)
    ensures Chain(fs, c + [f])
  {
    var d := c + [f];
    forall i | 0 <= i < |d| - 1 ensures Edge(fs, d[i], d[i + 1]) {
      if i < |c| - 1 {
        assert Edge(fs, c[i], c[i + 1]);
      }
    }
  }

  /** A refusal has a reason: a bad chain that continues the one being read. */
  lemma {:induction false} ItemsFailureHasChain(fs: FileSystem, k: nat, c: seq<Path>, visited: set<Path>)
    returns (bad: seq<Path>)
    requires Reading(fs, c, visited) && k <= |fs[c[|c| - 1]]|
    requires ParseItems(fs, fs[c[|c| - 1]][k..], visited).Failure?
    ensures Bad(fs, bad) && bad[0] == c[0]
    ensures ParseItems(fs, fs[c[|c| - 1]][k..], visited).error.Recursive? ==> Revisits(bad)
    decreases |fs.Keys - visited|, 2, |fs[c[|c| - 1]]| - k
  {
    var file := c[|c| - 1];
    var items := fs[file][k..];
    var item := items[0];
    assert item == fs[file][k] && items[1..] == fs[file][k + 1..];
    if item.Include? && item.files == [] && !item.wildcard {
      assert BrokenItem(fs, fs[file][k]);
      bad := c;
    } else if item.Include? && ParseFiles(fs, item.files, visited).Failure? {
      forall f | f in item.files ensures Edge(fs, file, f) {
        assert fs[file][k].Include?;
      }
      bad := FilesFailureHasChain(fs, k, 0, c, visited);
    } else {
      bad := ItemsFailureHasChain(fs, k + 1, c, visited);
    }
  }

  lemma {:induction false} FilesFailureHasChain(fs: FileSystem, k: nat, j: nat, c: seq<Path>, visited: set<Path>)
    returns (bad: seq<Path>)
    requires Reading(fs, c, visited) && k < |fs[c[|c| - 1]]| && fs[c[|c| - 1]][k].Include?
    requires j <= |fs[c[|c| - 1]][k].files|
    requires ParseFiles(fs, fs[c[|c| - 1]][k].files[j..], visited).Failure?
    ensures Bad(fs, bad) && bad[0] == c[0]
    ensures ParseFiles(fs, fs[c[|c| - 1]][k].files[j..], visited).error.Recursive? ==> Revisits(bad)
    decreases |fs.Keys - visited|, 1, |fs[c[|c| - 1]][k].files| - j
  {
    var file := c[|c| - 1];
    var all := fs[file][k].files;
    var files := all[j..];
    var f := files[0];
    assert f == all[j] && f in all && files[1..] == all[j + 1..];
    assert Edge(fs, file, f);
    if f !in fs {
      assert BrokenItem(fs, fs[file][k]);
      bad := c;
    } else if f in visited {
      Extend(fs, c, f);
      var i :| 0 <= i < |c| && c[i] == f;
      bad := c + [f];
      assert bad[i] == bad[|bad| - 1];
    } else if ParseFile(fs, f, visited).Failure? {
      Shrinks(fs, f, visited);
      Extend(fs, c, f);
      var d := c + [f];
      assert fs[f][0..] == fs[f];
      bad := ItemsFailureHasChain(fs, 0, d, visited + {f});
    } else {
      bad := FilesFailureHasChain(fs, k, j + 1, c, visited);
    }
  }

  /**
   * Reading fails exactly when some chain of includes from the root comes back to a file on
   * it or reaches an include that cannot be read; a complaint about recursion always has
   * a chain that comes back. Files included twice along different chains are no obstacle.
   */
  lemma FailsExactlyOnBadChains(fs: FileSystem, root: Path)
    requires root in fs
    ensures ParseFile(fs, root, {}).Failure? <==> exists c :: Bad(fs, c) && c[0] == root
    ensures ParseFile(fs, root, {}).Failure? && ParseFile(fs, root, {}).error.Recursive? ==>
              exists c :: Bad(fs, c) && c[0] == root && Revisits(c)
  {
    hide ParseItems, InlineItems;
    if ParseFile(fs, root, {}).Failure? {
      assert fs[root][0..] == fs[root] && {} + {root} == {root};
      var bad := ItemsFailureHasChain(fs, 0, [root], {root});
    } else {
      ParsingIsInlining(fs, root);
      var depth :| Inlines(fs, root, depth);
      forall c | Bad(fs, c) ensures c[0] != root {
        BadChainNeverInlines(fs, c, depth);
      }
    }
  }

  // ----- The reader itself -----

  function Flat(chunks: seq<seq<string>>): seq<string> {
    if chunks == [] then [] else Flat(chunks[..|chunks| - 1]) + chunks[|chunks| - 1]
  }

  lemma FlatNext(chunks: seq<seq<string>>, chunk: seq<string>)
    ensures Flat(chunks + [chunk]) == Flat(chunks) + chunk
  {
    assert (chunks + [chunk])[..|chunks|] == chunks;
  }

  /** What a reader has handed on, followed by the outcome of reading the rest. */
  function Then(done: seq<string>, r: Result<seq<string>, IncludeError>): Result<seq<string>, IncludeError> {
    match r
    case Failure(e) => Failure(e)
    case Success(lines) => Success(done + lines)
  }

  class Reader {
    const fs: FileSystem
    /** The files on the way from the main file to the current one. */
    var visited: set<Path>
    /** The pieces of text handed to the parser, in order. */
    var parsed: seq<seq<string>>

    constructor (fs: FileSystem)
      ensures this.fs == fs && visited == {} && parsed == []
    {
      this.fs, visited, parsed := fs, {}, [];
    }

    /** Hands the buffered lines on as one piece; nothing if there are none. */
    method ParseBuffer(buffer: seq<string>)
      modifies this`parsed
      ensures Flat(parsed) == Flat(old(parsed)) + buffer
    {
      if buffer == [] { return; }
      FlatNext(parsed, buffer);
      parsed := parsed + [buffer];
    }

    /** Reads one file: buffers lines between includes, and leaves the visited set as it found it. */
    method ParseConfig(path: Path) returns (r: Result<(), IncludeError>)
      requires path in fs
      modifies this
      ensures r.Success? <==> ParseFile(fs, path, old(visited)).Success?
      ensures r.Failure? ==> r.error == ParseFile(fs, path, old(visited)).error
      ensures r.Success? ==> visited == old(visited)
      ensures r.Success? ==> Flat(parsed) == Flat(old(parsed)) + ParseFile(fs, path, old(visited)).value
      decreases |fs.Keys - visited|, 0
    {
      if path in visited { return Failure(Recursive(path)); }
      Shrinks(fs, path, visited);
      ghost var outer := visited;
      ghost var before := Flat(parsed);
      visited := visited + {path};
      ghost var inner := visited;
      var items := fs[path];
      var buffer: seq<string> := [];
      ghost var whole := Then(before, ParseItems(fs, items, inner));
      assert items[0..] == items && Flat(parsed) + [] == Flat(parsed);
      for k := 0 to |items|
        invariant visited == inner
        invariant Then(Flat(parsed) + buffer, ParseItems(fs, items[k..], inner)) == whole
      {
        assert items[k..][0] == items[k] && items[k..][1..] == items[k + 1..];
        ghost var done := Flat(parsed) + buffer;
        match items[k] {
          case Line(text) =>
            StepLine(fs, items[k..], inner, Flat(parsed), buffer);
            buffer := buffer + [text];
          case Include(files, wildcard) =>
            StepInclude(fs, items[k..], inner, done);
            ParseBuffer(buffer);
            buffer := [];
            var included := ResolveInclude(files, wildcard);
            if included.Failure? { return Failure(included.error); }
            assert Flat(parsed) + [] == Flat(parsed);
        }
      }
      assert items[|items|..] == [];
      ParseBuffer(buffer);
      visited := visited - {path};
      assert visited == outer;
      return Success(());
    }

    /** Reads the files of one include, in order. */
    method ResolveInclude(files: seq<Path>, wildcard: bool) returns (r: Result<(), IncludeError>)
      modifies this
      ensures var spec := if files == [] && !wildcard then Failure(NotFound) else ParseFiles(fs, files, old(visited));
              && (r.Success? <==> spec.Success?)
              && (r.Failure? ==> r.error == spec.error)
              && (r.Success? ==> visited == old(visited) && Flat(parsed) == Flat(old(parsed)) + spec.value)
      decreases |fs.Keys - visited|, 1
    {
      if files == [] && !wildcard { return Failure(NotFound); }
      ghost var start := visited;
      ghost var whole := Then(Flat(parsed), ParseFiles(fs, files, start));
      for k := 0 to |files|
        invariant visited == start
        invariant Then(Flat(parsed), ParseFiles(fs, files[k..], start)) == whole
      {
        assert files[k..][0] == files[k] && files[k..][1..] == files[k + 1..];
        if files[k] !in fs { return Failure(Unreadable(files[k])); }
        StepFile(fs, files[k..], start, Flat(parsed));
        var one := ParseConfig(files[k]);
        if one.Failure? { return one; }
      }
      assert files[|files|..] == [];
      return Success(());
    }
  }

  lemma ThenAppend(a: seq<string>, b: seq<string>, r: Result<seq<string>, IncludeError>)
    ensures Then(a, Then(b, r)) == Then(a + b, r)
  {
    if r.Success? {
      assert a + (b + r.value) == (a + b) + r.value;
    }
  }

  lemma StepLine(fs: FileSystem, items: seq<Item>, visited: set<Path>, a: seq<string>, buffer: seq<string>)
    requires items != [] && items[0].Line?
    ensures Then(a + buffer, ParseItems(fs, items, visited))
         == Then(a + (buffer + [items[0].text]), ParseItems(fs, items[1..], visited))
  {
    var rest := ParseItems(fs, items[1..], visited);
    assert ParseItems(fs, items, visited) == Then([items[0].text], rest);
    ThenAppend(a + buffer, [items[0].text], rest);
    assert (a + buffer) + [items[0].text] == a + (buffer + [items[0].text]);
  }

  lemma StepInclude(fs: FileSystem, items: seq<Item>, visited: set<Path>, done: seq<string>)
    requires items != [] && items[0].Include?
    ensures var Include(files, wildcard) := items[0];
            var head := if files == [] && !wildcard then Failure(NotFound) else ParseFiles(fs, files, visited);
            && (head.Failure? ==> ParseItems(fs, items, visited) == Failure(head.error))
            && (head.Success? ==> Then(done, ParseItems(fs, items, visited))
                                  == Then(done + head.value, ParseItems(fs, items[1..], visited)))
  {
    var Include(files, wildcard) := items[0];
    if files != [] || wildcard {
      var head := ParseFiles(fs, files, visited);
      if head.Success? {
        assert ParseItems(fs, items, visited) == Then(head.value, ParseItems(fs, items[1..], visited));
        ThenAppend(done, head.value, ParseItems(fs, items[1..], visited));
      }
    }
  }

  lemma StepFile(fs: FileSystem, files: seq<Path>, visited: set<Path>, done: seq<string>)
    requires files != [] && files[0] in fs
    ensures var first := ParseFile(fs, files[0], visited);
            && (first.Failure? ==> ParseFiles(fs, files, visited) == Failure(first.error))
            && (first.Success? ==> Then(done, ParseFiles(fs, files, visited))
                                   == Then(done + first.value, ParseFiles(fs, files[1..], visited)))
  {
    var first := ParseFile(fs, files[0], visited);
    if first.Success? {
      assert ParseFiles(fs, files, visited) == Then(first.value, ParseFiles(fs, files[1..], visited));
      ThenAppend(done, first.value, ParseFiles(fs, files[1..], visited));
    }
  }
}
