/** Loading every module of a directory tree. A directory is read in
    listing order; files pass an ignore list and a filter list and are
    optionally imported; sub-directories pass their own ignore list and the
    same filter list and are loaded depth-first, their files spliced in at
    their position. The file system, the module loader and the two
    callbacks are replaced by values: an in-memory tree, a function from a
    path to what importing it gives, and a trace of the calls that would
    have been made. */
module FileSystem {
  import opened Js
  import opened Seqs

  // ---------------------------------------------------------------------
  // Matching names against lists
  // ---------------------------------------------------------------------

  /** A list item: a string compared for equality, or a regular expression
      reduced to what its `test` answers for a name. */
  datatype Matcher = Exact(text: string) | Pattern(test: string -> bool)

  predicate Matches(m: Matcher, name: string)
  {
    match m
    case Exact(text) => text == name
    case Pattern(test) => test(name)
  }

  /** Some item of the list matches the name. */
  predicate AnyMatch(list: seq<Matcher>, name: string)
  {
    exists i | 0 <= i < |list| :: Matches(list[i], name)
  }

  /** A file passes a filter list when the list is empty or some item matches. */
  predicate Included(name: string, list: seq<Matcher>)
  {
    |list| == 0 || AnyMatch(list, name)
  }

  /** A name is ignored when some item of the ignore list matches it. */
  predicate Ignored(name: string, list: seq<Matcher>)
  {
    AnyMatch(list, name)
  }

  /** `shouldIncludeFile`: true at once for an empty list, otherwise the
      first matching item answers true and running off the end answers false. */
  method ShouldIncludeFile(name: string, filterList: seq<Matcher>) returns (r: bool)
    ensures r <==> |filterList| == 0 || exists i | 0 <= i < |filterList| :: Matches(filterList[i], name)
  {
    if |filterList| == 0 {
      return true;
    }
    for k := 0 to |filterList|
      invariant forall i | 0 <= i < k :: !Matches(filterList[i], name)
    {
      var item := filterList[k];
      match item {
        case Exact(text) =>
          if text == name {
            return true;
          }
        case Pattern(test) =>
          if test(name) {
            return true;
          }
      }
    }
    return false;
  }

  /** `shouldIgnoreFile`: the first matching item answers true; an empty
      list answers false. */
  method ShouldIgnoreFile(name: string, ignoreList: seq<Matcher>) returns (r: bool)
    ensures r <==> exists i | 0 <= i < |ignoreList| :: Matches(ignoreList[i], name)
  {
    for k := 0 to |ignoreList|
      invariant forall i | 0 <= i < k :: !Matches(ignoreList[i], name)
    {
      var item := ignoreList[k];
      match item {
        case Exact(text) =>
          if text == name {
            return true;
          }
        case Pattern(test) =>
          if test(name) {
            return true;
          }
      }
    }
    return false;
  }

  /** On a non-empty list the two tests agree: they differ only in what the
      empty list means. */
  lemma IncludeMatchesIgnore(name: string, list: seq<Matcher>)
    ensures Ignored(name, list) <==> |list| > 0 && Included(name, list)
    ensures |list| == 0 ==> Included(name, list) && !Ignored(name, list)
  {
  }

  // ---------------------------------------------------------------------
  // Options
  // ---------------------------------------------------------------------

  /** A boolean option as the caller's object holds it: no such key, the
      key with value `undefined`, or a value. */
  datatype Flag = Absent | Undefined | Given(value: bool)

  /** The options object. A missing or undefined list is the empty list,
      which is what the two tests' default parameter makes of it. */
  datatype LoadOptions = LoadOptions(
    recursive: Flag,
    autoImport: Flag,
    autoDefault: Flag,
    filterFiles: seq<Matcher>,
    ignoreFiles: seq<Matcher>,
    ignoreFolders: seq<Matcher>)

  /** An option is on when it holds `true`; `undefined` is falsy. */
  predicate Enabled(f: Flag)
  {
    f == Given(true)
  }

  /** `{recursive: true, auto_import: true, auto_default: true, ...options}`:
      a key the caller did not write takes the default, a key the caller
      wrote, even as `undefined`, keeps its value. */
  function WithDefault(f: Flag): (g: Flag)
    ensures g != Absent
    ensures f != Absent ==> g == f
    ensures Enabled(g) <==> f == Absent || Enabled(f)
  {
    if f.Absent? then Given(true) else f
  }

  function MergeDefaults(o: LoadOptions): (m: LoadOptions)
    ensures Enabled(m.recursive) <==> o.recursive == Absent || Enabled(o.recursive)
    ensures Enabled(m.autoImport) <==> o.autoImport == Absent || Enabled(o.autoImport)
    ensures Enabled(m.autoDefault) <==> o.autoDefault == Absent || Enabled(o.autoDefault)
    ensures m.filterFiles == o.filterFiles && m.ignoreFiles == o.ignoreFiles && m.ignoreFolders == o.ignoreFolders
  {
    o.(recursive := WithDefault(o.recursive),
       autoImport := WithDefault(o.autoImport),
       autoDefault := WithDefault(o.autoDefault))
  }

  /** The nested call receives the merged options and merges them again,
      which changes nothing: every level sees the same options. */
  lemma MergeIdempotent(o: LoadOptions)
    ensures MergeDefaults(MergeDefaults(o)) == MergeDefaults(o)
  {
  }

  /** An options object that leaves out the three switches turns all three on. */
  lemma DefaultsAllOn(f: seq<Matcher>, i: seq<Matcher>, d: seq<Matcher>)
    ensures var m := MergeDefaults(LoadOptions(Absent, Absent, Absent, f, i, d));
      Enabled(m.recursive) && Enabled(m.autoImport) && Enabled(m.autoDefault)
  {
  }

  // ---------------------------------------------------------------------
  // The tree, the loader and the records
  // ---------------------------------------------------------------------

  /** A directory entry as `lstat` classifies it: a directory with its
      listing, anything else (a file), or an entry `lstat` fails on. */
  datatype Entry = File(name: string) | Dir(name: string, children: seq<Entry>) | Unstattable(name: string)

  /** The folder to load: `lstat` fails on it, or it lists these entries. */
  datatype Root = Missing | Folder(entries: seq<Entry>)

  /** What a dynamic import of a path gives: the module namespace and its
      `default` export when that is truthy, or the error it threw. */
  datatype ImportResult<C> = Imported(namespace: C, default: Option<C>) | ImportFailed(error: string)

  /** One loaded file: its name, its path as the names from the root, and
      its content (`None` for `null`). */
  datatype FileRecord<C> = FileRecord(name: string, path: seq<string>, content: Option<C>)

  /** A call the loader makes: an import error reported on the terminal,
      the per-file callback, or the all-files callback. */
  datatype Event<C> =
    | ImportLogged(path: seq<string>, error: string)
    | SingleCalled(file: FileRecord<C>)
    | AllCalled(files: seq<FileRecord<C>>)

  /** The loaded files and the calls made while loading them. */
  datatype Load<C> = Load(files: seq<FileRecord<C>>, trace: seq<Event<C>>)

  /** What is fixed for one load: the merged options, the module loader,
      and whether a per-file callback was given. */
  datatype Context<C> = Context(opts: LoadOptions, importer: seq<string> -> ImportResult<C>, hasSingle: bool)

  /** A file is kept when the ignore list does not match it and the filter
      list lets it through. */
  predicate Kept(o: LoadOptions, name: string)
  {
    !Ignored(name, o.ignoreFiles) && Included(name, o.filterFiles)
  }

  /** A directory is entered when loading is recursive, the folder ignore
      list does not match it and the file filter list lets it through. */
  predicate Descends(o: LoadOptions, name: string)
  {
    Enabled(o.recursive) && !Ignored(name, o.ignoreFolders) && Included(name, o.filterFiles)
  }

  /** The content of a kept file: `null` unless importing is on and
      succeeds; with `auto_default` a truthy `default` export replaces the
      namespace. */
  function ContentOf<C>(o: LoadOptions, r: ImportResult<C>): (c: Option<C>)
    ensures !Enabled(o.autoImport) ==> c == None
    ensures r.ImportFailed? ==> c == None
    ensures Enabled(o.autoImport) && r.Imported? ==>
      c == (if Enabled(o.autoDefault) && r.default.Some? then r.default else Some(r.namespace))
  {
    if !Enabled(o.autoImport) then None
    else match r
      case Imported(ns, d) => if Enabled(o.autoDefault) && d.Some? then d else Some(ns)
      case ImportFailed(_) => None
  }

  /** The calls made for one kept file: the import error, if importing was
      attempted and failed, then the per-file callback. */
  function FileEvents<C>(ctx: Context<C>, rec: FileRecord<C>): seq<Event<C>>
  {
    var r := ctx.importer(rec.path);
    (if Enabled(ctx.opts.autoImport) && r.ImportFailed? then [ImportLogged(rec.path, r.error)] else [])
    + (if ctx.hasSingle then [SingleCalled(rec)] else [])
  }

  /** The loop over a directory listing, in listing order. */
  function Walk<C>(ctx: Context<C>, dir: seq<string>, entries: seq<Entry>): Load<C>
    decreases entries
  {
    if |entries| == 0 then Load([], [])
    else
      var first := Visit(ctx, dir, entries[0]);
      var rest := Walk(ctx, dir, entries[1..]);
      Load(first.files + rest.files, first.trace + rest.trace)
  }

  /** One entry of a listing. A directory that is entered is loaded by a
      nested call without an all-files callback whose per-file callback
      appends to this level's list and forwards to the caller's callback;
      the records and calls are therefore the nested walk's own. */
  function Visit<C>(ctx: Context<C>, dir: seq<string>, e: Entry): Load<C>
    decreases e
  {
    match e
    case Unstattable(_) => Load([], [])
    case Dir(name, children) =>
      if Descends(ctx.opts, name) then Walk(ctx, dir + [name], children) else Load([], [])
    case File(name) =>
      if Kept(ctx.opts, name) then
        var path := dir + [name];
        var rec := FileRecord(name, path, ContentOf(ctx.opts, ctx.importer(path)));
        Load([rec], FileEvents(ctx, rec))
      else Load([], [])
  }

  /** `loadFolder(dir, options, callback, callbackSingle)`. */
  function LoadFolder<C>(options: LoadOptions, importer: seq<string> -> ImportResult<C>, dir: seq<string>,
                         root: Root, hasAll: bool, hasSingle: bool): (r: Load<C>)
    ensures root.Missing? ==> r.files == [] && r.trace == (if hasAll then [AllCalled([])] else [])
    ensures hasAll ==> |r.trace| >= 1 && r.trace[|r.trace| - 1] == AllCalled(r.files)
    ensures (forall i | 0 <= i < |r.trace| :: r.trace[i].AllCalled? ==> i == |r.trace| - 1)
    ensures !hasAll ==> forall i | 0 <= i < |r.trace| :: !r.trace[i].AllCalled?
    ensures root.Folder? ==>
      var w := Walk(Context(MergeDefaults(options), importer, hasSingle), dir, root.entries);
      r.files == w.files && r.trace == w.trace + (if hasAll then [AllCalled(w.files)] else [])
  {
    var ctx := Context(MergeDefaults(options), importer, hasSingle);
    var w := if root.Missing? then Load([], []) else Walk(ctx, dir, root.entries);
    WalkNoAllCalls(ctx, dir, if root.Missing? then [] else root.entries);
    Load(w.files, w.trace + (if hasAll then [AllCalled(w.files)] else []))
  }

  // ---------------------------------------------------------------------
  // Properties of the walk
  // ---------------------------------------------------------------------

  /** Listings are processed in order: the load of a concatenation is the
      concatenation of the loads. */
  lemma {:induction false} WalkAppend<C>(ctx: Context<C>, dir: seq<string>, a: seq<Entry>, b: seq<Entry>)
    ensures Walk(ctx, dir, a + b).files == Walk(ctx, dir, a).files + Walk(ctx, dir, b).files
    ensures Walk(ctx, dir, a + b).trace == Walk(ctx, dir, a).trace + Walk(ctx, dir, b).trace
  {
    if |a| > 0 {
      var first := Visit(ctx, dir, a[0]);
      var wa, wb := Walk(ctx, dir, a[1..]), Walk(ctx, dir, b);
      assert (a + b)[0] == a[0];
      assert (a + b)[1..] == a[1..] + b;
      WalkAppend(ctx, dir, a[1..], b);
      assert Walk(ctx, dir, a + b).files == first.files + (wa.files + wb.files);
      assert Walk(ctx, dir, a + b).trace == first.trace + (wa.trace + wb.trace);
      Assoc(first.files, wa.files, wb.files);
      Assoc(first.trace, wa.trace, wb.trace);
    } else {
      assert a + b == b;
    }
  }

  /** An entered sub-directory's files take its place in the listing. */
  lemma SubfolderSpliced<C>(ctx: Context<C>, dir: seq<string>, before: seq<Entry>, name: string,
                            children: seq<Entry>, after: seq<Entry>)
    requires Descends(ctx.opts, name)
    ensures Walk(ctx, dir, before + [Dir(name, children)] + after).files
         == Walk(ctx, dir, before).files + Walk(ctx, dir + [name], children).files + Walk(ctx, dir, after).files
  {
    WalkAppend(ctx, dir, before + [Dir(name, children)], after);
    WalkAppend(ctx, dir, before, [Dir(name, children)]);
    assert Walk(ctx, dir, [Dir(name, children)]).files == Walk(ctx, dir + [name], children).files + [];
  }

  /** Every record lies below the directory, ends with its own name, names
      a kept file, and holds the content its import gives. */
  lemma {:induction false} WalkRecords<C>(ctx: Context<C>, dir: seq<string>, entries: seq<Entry>)
    ensures forall f | f in Walk(ctx, dir, entries).files ::
      && |f.path| > |dir| && f.path[..|dir|] == dir && f.path[|f.path| - 1] == f.name
      && Kept(ctx.opts, f.name)
      && f.content == ContentOf(ctx.opts, ctx.importer(f.path))
    decreases entries
  {
    if |entries| > 0 {
      VisitRecords(ctx, dir, entries[0]);
      WalkRecords(ctx, dir, entries[1..]);
    }
  }

  lemma {:induction false} VisitRecords<C>(ctx: Context<C>, dir: seq<string>, e: Entry)
    ensures forall f | f in Visit(ctx, dir, e).files ::
      && |f.path| > |dir| && f.path[..|dir|] == dir && f.path[|f.path| - 1] == f.name
      && Kept(ctx.opts, f.name)
      && f.content == ContentOf(ctx.opts, ctx.importer(f.path))
    decreases e
  {
    if e.Dir? && Descends(ctx.opts, e.name) {
      var sub := dir + [e.name];
      WalkRecords(ctx, sub, e.children);
      forall f | f in Walk(ctx, sub, e.children).files
        ensures f.path[..|dir|] == dir
      {
        assert f.path[..|dir|] == f.path[..|sub|][..|dir|];
      }
    }
  }

  /** The file `name` at `path` is selected from a listing: it is a kept
      file of the listing itself, or it is selected from the listing of an
      entered sub-directory. */
  ghost predicate Selects<C>(ctx: Context<C>, dir: seq<string>, entries: seq<Entry>, name: string, path: seq<string>)
    decreases entries, 1
  {
    exists i | 0 <= i < |entries| :: SelectsFrom(ctx, dir, entries[i], name, path)
  }

  ghost predicate SelectsFrom<C>(ctx: Context<C>, dir: seq<string>, e: Entry, name: string, path: seq<string>)
    decreases e, 0
  {
    match e
    case Unstattable(_) => false
    case File(n) => n == name && path == dir + [n] && Kept(ctx.opts, n)
    case Dir(n, children) => Descends(ctx.opts, n) && Selects(ctx, dir + [n], children, name, path)
  }

  /** A record is loaded exactly when the file it names is selected. */
  lemma {:induction false} WalkSelects<C>(ctx: Context<C>, dir: seq<string>, entries: seq<Entry>, name: string, path: seq<string>)
    ensures (exists f | f in Walk(ctx, dir, entries).files :: f.name == name && f.path == path)
        <==> Selects(ctx, dir, entries, name, path)
    decreases entries
  {
    if |entries| > 0 {
      var w := Walk(ctx, dir, entries);
      var first := Visit(ctx, dir, entries[0]);
      var rest := Walk(ctx, dir, entries[1..]);
      VisitSelects(ctx, dir, entries[0], name, path);
      WalkSelects(ctx, dir, entries[1..], name, path);
      if exists f | f in w.files :: f.name == name && f.path == path {
        var f :| f in w.files && f.name == name && f.path == path;
        if f in first.files {
          assert SelectsFrom(ctx, dir, entries[0], name, path);
        } else {
          assert f in rest.files;
          var i :| 0 <= i < |entries[1..]| && SelectsFrom(ctx, dir, entries[1..][i], name, path);
          assert entries[1..][i] == entries[i + 1];
        }
      }
      if Selects(ctx, dir, entries, name, path) {
        var i :| 0 <= i < |entries| && SelectsFrom(ctx, dir, entries[i], name, path);
        if i == 0 {
          var f :| f in first.files && f.name == name && f.path == path;
          assert f in w.files;
        } else {
          assert entries[1..][i - 1] == entries[i];
          var f :| f in rest.files && f.name == name && f.path == path;
          assert f in w.files;
        }
      }
    }
  }

  lemma {:induction false} VisitSelects<C>(ctx: Context<C>, dir: seq<string>, e: Entry, name: string, path: seq<string>)
    ensures (exists f | f in Visit(ctx, dir, e).files :: f.name == name && f.path == path)
        <==> SelectsFrom(ctx, dir, e, name, path)
    decreases e
  {
    match e
    case Unstattable(_) =>
    case File(n) =>
      if SelectsFrom(ctx, dir, e, name, path) {
        assert Visit(ctx, dir, e).files[0].name == name;
      }
    case Dir(n, children) =>
      if Descends(ctx.opts, n) {
        WalkSelects(ctx, dir + [n], children, name, path);
      }
  }

  /** Without recursion every record is a file of the folder itself. */
  lemma {:induction false} FlatWithoutRecursion<C>(ctx: Context<C>, dir: seq<string>, entries: seq<Entry>)
    requires !Enabled(ctx.opts.recursive)
    ensures forall f | f in Walk(ctx, dir, entries).files :: f.path == dir + [f.name]
  {
    if |entries| > 0 {
      FlatWithoutRecursion(ctx, dir, entries[1..]);
    }
  }

  /** With importing off no module is loaded, so no content is set and no
      error is reported. */
  lemma {:induction false} NoImportNoContent<C>(ctx: Context<C>, dir: seq<string>, entries: seq<Entry>)
    requires !Enabled(ctx.opts.autoImport)
    ensures forall f | f in Walk(ctx, dir, entries).files :: f.content == None
    ensures forall i | 0 <= i < |Walk(ctx, dir, entries).trace| :: !Walk(ctx, dir, entries).trace[i].ImportLogged?
    decreases entries
  {
    if |entries| > 0 {
      NoImportVisit(ctx, dir, entries[0]);
      NoImportNoContent(ctx, dir, entries[1..]);
      var w := Walk(ctx, dir, entries);
      var first := Visit(ctx, dir, entries[0]);
      var rest := Walk(ctx, dir, entries[1..]);
      forall i | 0 <= i < |w.trace|
        ensures !w.trace[i].ImportLogged?
      {
        if i >= |first.trace| {
          assert w.trace[i] == rest.trace[i - |first.trace|];
        }
      }
    }
  }

  lemma {:induction false} NoImportVisit<C>(ctx: Context<C>, dir: seq<string>, e: Entry)
    requires !Enabled(ctx.opts.autoImport)
    ensures forall f | f in Visit(ctx, dir, e).files :: f.content == None
    ensures forall i | 0 <= i < |Visit(ctx, dir, e).trace| :: !Visit(ctx, dir, e).trace[i].ImportLogged?
    decreases e
  {
    if e.Dir? && Descends(ctx.opts, e.name) {
      NoImportNoContent(ctx, dir + [e.name], e.children);
    }
  }

  /** The files the per-file callback receives, in call order. */
  function SingleCalls<C>(trace: seq<Event<C>>): (fs: seq<FileRecord<C>>)
    ensures |fs| <= |trace|
  {
    if |trace| == 0 then []
    else (if trace[0].SingleCalled? then [trace[0].file] else []) + SingleCalls(trace[1..])
  }

  lemma {:induction false} SingleCallsAppend<C>(a: seq<Event<C>>, b: seq<Event<C>>)
    ensures SingleCalls(a + b) == SingleCalls(a) + SingleCalls(b)
  {
    if |a| > 0 {
      assert (a + b)[0] == a[0];
      assert (a + b)[1..] == a[1..] + b;
      SingleCallsAppend(a[1..], b);
    } else {
      assert a + b == b;
    }
  }

  /** The per-file callback, when given, receives every loaded file once,
      in output order, including the files of sub-directories. */
  lemma {:induction false} WalkSingleCalls<C>(ctx: Context<C>, dir: seq<string>, entries: seq<Entry>)
    ensures SingleCalls(Walk(ctx, dir, entries).trace) == if ctx.hasSingle then Walk(ctx, dir, entries).files else []
    decreases entries
  {
    if |entries| > 0 {
      VisitSingleCalls(ctx, dir, entries[0]);
      WalkSingleCalls(ctx, dir, entries[1..]);
      SingleCallsAppend(Visit(ctx, dir, entries[0]).trace, Walk(ctx, dir, entries[1..]).trace);
    }
  }

  lemma {:induction false} VisitSingleCalls<C>(ctx: Context<C>, dir: seq<string>, e: Entry)
    ensures SingleCalls(Visit(ctx, dir, e).trace) == if ctx.hasSingle then Visit(ctx, dir, e).files else []
    decreases e
  {
    match e
    case Unstattable(_) =>
    case Dir(n, children) =>
      if Descends(ctx.opts, n) {
        WalkSingleCalls(ctx, dir + [n], children);
      }
    case File(n) =>
      if Kept(ctx.opts, n) {
        var path := dir + [n];
        var rec := FileRecord(n, path, ContentOf(ctx.opts, ctx.importer(path)));
        var r := ctx.importer(path);
        var logs: seq<Event<C>> := if Enabled(ctx.opts.autoImport) && r.ImportFailed? then [ImportLogged(path, r.error)] else [];
        var calls: seq<Event<C>> := if ctx.hasSingle then [SingleCalled(rec)] else [];
        SingleCallsAppend(logs, calls);
        assert SingleCalls(logs) == [];
        assert FileEvents(ctx, rec) == logs + calls;
      }
  }

  /** Nested loads have no all-files callback. */
  lemma {:induction false} WalkNoAllCalls<C>(ctx: Context<C>, dir: seq<string>, entries: seq<Entry>)
    ensures forall i | 0 <= i < |Walk(ctx, dir, entries).trace| :: !Walk(ctx, dir, entries).trace[i].AllCalled?
    decreases entries
  {
    if |entries| > 0 {
      VisitNoAllCalls(ctx, dir, entries[0]);
      WalkNoAllCalls(ctx, dir, entries[1..]);
      var first := Visit(ctx, dir, entries[0]);
      var rest := Walk(ctx, dir, entries[1..]);
      forall i | 0 <= i < |first.trace + rest.trace|
        ensures !(first.trace + rest.trace)[i].AllCalled?
      {
        if i >= |first.trace| {
          assert (first.trace + rest.trace)[i] == rest.trace[i - |first.trace|];
        }
      }
    }
  }

  lemma {:induction false} VisitNoAllCalls<C>(ctx: Context<C>, dir: seq<string>, e: Entry)
    ensures forall i | 0 <= i < |Visit(ctx, dir, e).trace| :: !Visit(ctx, dir, e).trace[i].AllCalled?
    decreases e
  {
    if e.Dir? && Descends(ctx.opts, e.name) {
      WalkNoAllCalls(ctx, dir + [e.name], e.children);
    }
  }

  /** `loadFolder` loads a file exactly when it is selected under the
      merged options. */
  lemma LoadFolderSelects<C>(options: LoadOptions, importer: seq<string> -> ImportResult<C>, dir: seq<string>,
                             entries: seq<Entry>, hasAll: bool, hasSingle: bool, name: string, path: seq<string>)
    ensures var r := LoadFolder(options, importer, dir, Folder(entries), hasAll, hasSingle);
      (exists f | f in r.files :: f.name == name && f.path == path)
      <==> Selects(Context(MergeDefaults(options), importer, hasSingle), dir, entries, name, path)
  {
    WalkSelects(Context(MergeDefaults(options), importer, hasSingle), dir, entries, name, path);
  }

  /** The callbacks of one `loadFolder` call: the per-file callback, when
      given, receives the returned list in order, and the all-files
      callback, when given, receives it once at the end. */
  lemma LoadFolderCallbacks<C>(options: LoadOptions, importer: seq<string> -> ImportResult<C>, dir: seq<string>,
                               root: Root, hasAll: bool, hasSingle: bool)
    ensures var r := LoadFolder(options, importer, dir, root, hasAll, hasSingle);
      SingleCalls(r.trace) == if hasSingle then r.files else []
  {
    var r := LoadFolder(options, importer, dir, root, hasAll, hasSingle);
    var all: seq<Event<C>> := if hasAll then [AllCalled(r.files)] else [];
    assert SingleCalls(all) == [] by {
      if hasAll {
        assert all[1..] == [];
      }
    }
    if root.Folder? {
      var ctx := Context(MergeDefaults(options), importer, hasSingle);
      WalkSingleCalls(ctx, dir, root.entries);
      SingleCallsAppend(Walk(ctx, dir, root.entries).trace, all);
    } else {
      SingleCallsAppend([], all);
    }
  }

  /** The listing of the recursive-load example: a file beside a
      sub-directory holding one file gives both, the folder's own first. */
  lemma LoadsRecursively<C>(importer: seq<string> -> ImportResult<C>, dir: seq<string>)
    ensures var r := LoadFolder(LoadOptions(Absent, Absent, Absent, [], [], []), importer, dir,
                                Folder([File("file1.ts"), Dir("subfolder", [File("file2.ts")])]), false, false);
      |r.files| == 2 && r.files[0].name == "file1.ts" && r.files[1].name == "file2.ts"
      && r.files[1].path == dir + ["subfolder", "file2.ts"]
  {
    var o := MergeDefaults(LoadOptions(Absent, Absent, Absent, [], [], []));
    var ctx := Context(o, importer, false);
    var sub := [File("file2.ts")];
    var entries := [File("file1.ts"), Dir("subfolder", sub)];
    assert Kept(o, "file1.ts") && Kept(o, "file2.ts") && Descends(o, "subfolder");
    assert Walk(ctx, dir + ["subfolder"], sub).files
        == [FileRecord("file2.ts", dir + ["subfolder"] + ["file2.ts"], ContentOf(o, importer(dir + ["subfolder"] + ["file2.ts"])))];
    assert entries[1..][1..] == [];
    assert Walk(ctx, dir, entries[1..]).files == Walk(ctx, dir + ["subfolder"], sub).files;
    assert dir + ["subfolder"] + ["file2.ts"] == dir + ["subfolder", "file2.ts"];
  }
}
