/**
 * `divvy_tasks_from_providers`: which channels to query and, for each, the
 * providers that declare it; when log files are named on the command line,
 * only the channels those files belong to, re-keyed by the file path.
 */
module TaskPartition {
  import opened Wrappers
  import opened WinTypes
  import opened Text
  import opened Provider

  type TaskMap = map<string, set<string>>

  // ----- the file key of a path -----

  predicate IsSeparator(c: char) {
    c == '\\' || c == '/'
  }

  /** The path without its trailing separators. */
  function TrimTrailingSeparators(path: string): (r: string)
    ensures r <= path && (r == [] || !IsSeparator(r[|r| - 1]))
    ensures forall k :: |r| <= k < |path| ==> IsSeparator(path[k])
  {
    if path != [] && IsSeparator(path[|path| - 1]) then TrimTrailingSeparators(path[..|path| - 1]) else path
  }

  /** The start of the text after the last separator. */
  function ComponentStart(s: string): (i: nat)
    ensures i <= |s| && forall k :: i <= k < |s| ==> !IsSeparator(s[k])
    ensures i == 0 || IsSeparator(s[i - 1])
  {
    if s == [] || IsSeparator(s[|s| - 1]) then |s| else ComponentStart(s[..|s| - 1])
  }

  /** `Path::file_name`: the last component, which must be present and not "..". */
  function FileName(path: string): (r: Result<string, Fault>)
    ensures r.Ok? ==> r.value != [] && r.value != ".." && forall k :: 0 <= k < |r.value| ==> !IsSeparator(r.value[k])
    ensures r.Err? ==> r.error.Panic?
  {
    var trimmed := TrimTrailingSeparators(path);
    var name := trimmed[ComponentStart(trimmed)..];
    if name == [] || name == ".." then Err(Panic("called `Option::unwrap()` on a `None` value"))
    else Ok(name)
  }

  /** The position of the last '.', if any. */
  function LastDot(s: string): (r: Option<nat>)
    ensures r.Some? ==> r.value < |s| && s[r.value] == '.' && forall k :: r.value < k < |s| ==> s[k] != '.'
    ensures r.None? ==> '.' !in s
  {
    if s == [] then None
    else if s[|s| - 1] == '.' then Some(|s| - 1)
    else
      var r := LastDot(s[..|s| - 1]);
      assert forall x :: x in s ==> x in s[..|s| - 1] || x == s[|s| - 1];
      r
  }

  /** `with_extension("")` on a file name: drop the text from the last '.', unless that dot opens the name. */
  function StripExtension(name: string): (r: string)
    ensures r <= name
    ensures r == name <==> forall k :: 0 < k < |name| ==> name[k] != '.'
    ensures r != name ==> r != [] && name[|r|] == '.' && forall k :: |r| < k < |name| ==> name[k] != '.'
  {
    match LastDot(name)
    case Some(i) => if i > 0 then name[..i] else name
    case None => name
  }

  const ARCHIVE_PREFIX := "Archive-"

  /** The length of the run of characters other than '-' that starts at j. */
  function NonHyphenRun(s: string, j: nat): (n: nat)
    requires j <= |s|
    ensures j + n <= |s| && (forall k :: j <= k < j + n ==> s[k] != '-') && (j + n < |s| ==> s[j + n] == '-')
    decreases |s| - j
  {
    if j == |s| || s[j] == '-' then 0 else 1 + NonHyphenRun(s, j + 1)
  }

  /** A match of `Archive-([^-]+)-.*` starting at i, and its capture. */
  function MatchAt(s: string, i: nat): (r: Option<string>)
    requires i <= |s|
    ensures r.Some? ==> r.value != [] && forall k :: 0 <= k < |r.value| ==> r.value[k] != '-'
  {
    if i + |ARCHIVE_PREFIX| <= |s| && s[i..i + |ARCHIVE_PREFIX|] == ARCHIVE_PREFIX then
      var j := i + |ARCHIVE_PREFIX|;
      var n := NonHyphenRun(s, j);
      if n > 0 && j + n < |s| then Some(s[j..j + n]) else None
    else None
  }

  /** The capture of the leftmost match at or after i. */
  function FirstMatch(s: string, i: nat): (r: Option<string>)
    requires i <= |s|
    ensures r.Some? ==> r.value != [] && forall k :: 0 <= k < |r.value| ==> r.value[k] != '-'
    decreases |s| - i
  {
    if MatchAt(s, i).Some? then MatchAt(s, i)
    else if i == |s| then None
    else FirstMatch(s, i + 1)
  }

  /**
   * The channel key of a path named on the command line: the file name
   * without its extension and with "%4" turned back into "/"; for an
   * `Archive-` name, the capture of `Archive-([^-]+)-.*`, which must exist.
   */
  function FileKey(path: string): (r: Result<string, Fault>)
    ensures r.Err? ==> r.error.Panic?
  {
    var fileName :- FileName(path);
    KeyOfName(ReplaceAll(StripExtension(fileName), "%4", "/"))
  }

  /** The key of an unescaped, extension-free file name. */
  function KeyOfName(name: string): (r: Result<string, Fault>)
    ensures !(ARCHIVE_PREFIX <= name) ==> r == Ok(name)
    ensures r.Err? ==> ARCHIVE_PREFIX <= name && r.error.Panic?
    ensures ARCHIVE_PREFIX <= name && r.Ok? ==> r.value != [] && forall k :: 0 <= k < |r.value| ==> r.value[k] != '-'
  {
    if ARCHIVE_PREFIX <= name then
      match FirstMatch(name, 0)
      case Some(channel) => Ok(channel)
      case None => Err(Panic("called `Option::unwrap()` on a `None` value"))
    else Ok(name)
  }

  // ----- the task map -----
  //
  // The provider sets below compare providers structurally, so in general one
  // could hold two providers of the same name, which the name-keyed
  // `HashSet<EvtProvider>` of the program cannot. The sets the program builds
  // come from `Publishers.Providers`, whose names are distinct
  // (`Publishers.ProvidersDistinctByName`), and nothing here depends on it:
  // providers sharing a name would only add that name to a channel's set once.

  /** The names of the providers that declare `channel`. */
  function Declarers(providers: set<EvtProvider>, channel: string): set<string> {
    set p | p in providers && channel in p.channels :: p.name
  }

  /** Every channel some provider declares. */
  function AllChannels(providers: set<EvtProvider>): set<string> {
    set p, c | p in providers && c in p.channels :: c
  }

  /** The task map of a provider set: each declared channel to the names of its declarers. */
  function Tasks(providers: set<EvtProvider>): TaskMap {
    map c | c in AllChannels(providers) :: Declarers(providers, c)
  }

  lemma DeclarersAdd(done: set<EvtProvider>, p: EvtProvider, c: string)
    ensures Declarers(done + {p}, c) == Declarers(done, c) + (if c in p.channels then {p.name} else {})
  {
  }

  /**
   * The first phase: for every provider and every channel it declares, add
   * the provider's name to that channel's entry, creating it if needed.
   */
  method CollectTasks(providers: set<EvtProvider>) returns (tasks: TaskMap)
    ensures tasks == Tasks(providers)
  {
    tasks := map[];
    var pending := providers;
    ghost var done: set<EvtProvider> := {};
    while pending != {}
      invariant pending + done == providers && pending !! done
      invariant tasks.Keys == AllChannels(done)
      invariant forall c :: c in tasks ==> tasks[c] == Declarers(done, c)
      decreases pending
    {
      var provider :| provider in pending;
      var channels := provider.channels;
      ghost var doneChannels: set<string> := {};
      while channels != {}
        invariant channels + doneChannels == provider.channels && channels !! doneChannels
        invariant tasks.Keys == AllChannels(done) + doneChannels
        invariant forall c :: c in tasks ==> tasks[c] == Declarers(done, c) + (if c in doneChannels then {provider.name} else {})
        decreases channels
      {
        var channel :| channel in channels;
        var names := if channel in tasks then tasks[channel] else {};
        if channel !in tasks {
          assert Declarers(done, channel) == {};
        }
        tasks := tasks[channel := names + {provider.name}];
        channels := channels - {channel};
        doneChannels := doneChannels + {channel};
      }
      forall c | c in tasks ensures tasks[c] == Declarers(done + {provider}, c) {
        DeclarersAdd(done, provider, c);
      }
      assert AllChannels(done + {provider}) == AllChannels(done) + provider.channels;
      pending := pending - {provider};
      done := done + {provider};
    }
    assert done == providers;
  }

  /**
   * What the second phase keeps: every entry is a named path whose key is a
   * task channel and whose value is that channel's declarer set, no two
   * entries share a key, and every named path whose key is a task channel
   * has its channel claimed by some entry.
   */
  predicate Claimed(result: TaskMap, tasks: TaskMap, args: set<string>, key: string -> Result<string, Fault>) {
    && (forall a :: a in result ==>
          a in args && key(a).Ok? && key(a).value in tasks && result[a] == tasks[key(a).value])
    && (forall a, b :: a in result && b in result && a != b ==> key(a) != key(b))
    && tasks.Keys * KeysOf(args, key) <= KeysOf(result.Keys, key)
  }

  /** The keys the given paths derive. */
  function KeysOf(paths: set<string>, key: string -> Result<string, Fault>): set<string> {
    set a | a in paths && key(a).Ok? :: key(a).value
  }

  /**
   * The second phase: for each named path (in set order), derive its key;
   * when the key is still a task channel, remove it and record its
   * declarers under the path. A path whose key cannot be derived panics.
   */
  method ClaimChannels(tasks: TaskMap, args: set<string>) returns (r: Result<TaskMap, Fault>)
    ensures r.Err? <==> exists a :: a in args && FileKey(a).Err?
    ensures r.Err? ==> r.error.Panic?
    ensures r.Ok? ==> Claimed(r.value, tasks, args, FileKey)
  {
    var remaining := tasks;
    var usedChannels: TaskMap := map[];
    var pending := args;
    ghost var seen: set<string> := {};
    while pending != {}
      invariant pending + seen == args && pending !! seen
      invariant forall a :: a in seen ==> FileKey(a).Ok? && FileKey(a).value !in remaining
      invariant forall k :: k in remaining ==> k in tasks && remaining[k] == tasks[k]
      invariant forall k :: k in tasks && k !in remaining ==> exists b :: b in usedChannels && FileKey(b) == Ok(k)
      invariant forall a :: a in usedChannels ==>
                  a in seen && FileKey(a).Ok? && FileKey(a).value in tasks && usedChannels[a] == tasks[FileKey(a).value]
      invariant forall a, b :: a in usedChannels && b in usedChannels && a != b ==> FileKey(a) != FileKey(b)
      decreases pending
    {
      var channelEntry :| channelEntry in pending;
      var fileKey := FileKey(channelEntry);
      if fileKey.Err? {
        return Err(fileKey.error);
      }
      if fileKey.value in remaining {
        var value := remaining[fileKey.value];
        remaining := remaining - {fileKey.value};
        usedChannels := usedChannels[channelEntry := value];
      }
      pending := pending - {channelEntry};
      seen := seen + {channelEntry};
    }
    return Ok(usedChannels);
  }

  /**
   * `divvy_tasks_from_providers`: the task map of all providers when no
   * paths were named, otherwise the channels the named paths claim.
   */
  method DivvyTasks(providers: set<EvtProvider>, channelsFromArgs: set<string>) returns (r: Result<TaskMap, Fault>)
    ensures channelsFromArgs == {} ==> r == Ok(Tasks(providers))
    ensures channelsFromArgs != {} ==>
              && (r.Err? <==> exists a :: a in channelsFromArgs && FileKey(a).Err?)
              && (r.Ok? ==> Claimed(r.value, Tasks(providers), channelsFromArgs, FileKey))
  {
    var tasks := CollectTasks(providers);
    if channelsFromArgs == {} {
      return Ok(tasks);
    }
    r := ClaimChannels(tasks, channelsFromArgs);
  }

  // ----- properties -----

  /** Without named paths, each channel maps to exactly the names of the providers declaring it. */
  lemma TasksExactly(providers: set<EvtProvider>, c: string, name: string)
    ensures c in Tasks(providers) <==> exists p :: p in providers && c in p.channels
    ensures c in Tasks(providers) ==>
              (name in Tasks(providers)[c] <==> exists p :: p in providers && c in p.channels && p.name == name)
  {
    if exists p :: p in providers && c in p.channels {
      var p :| p in providers && c in p.channels;
      assert c in AllChannels(providers);
    }
  }

  /**
   * Whichever order the paths are visited in, the result claims the same
   * channels: exactly the task channels that some named path's key names.
   */
  lemma ClaimedChannelsExactly(result: TaskMap, tasks: TaskMap, args: set<string>, key: string -> Result<string, Fault>)
    requires Claimed(result, tasks, args, key)
    ensures KeysOf(result.Keys, key) == tasks.Keys * KeysOf(args, key)
  {
    forall k | k in KeysOf(result.Keys, key) ensures k in tasks.Keys * KeysOf(args, key) {
      var b :| b in result.Keys && key(b).Ok? && key(b).value == k;
      assert b in args;
    }
  }

  /** Two visiting orders may pick different paths for a channel, but the same channels with the same values. */
  lemma ClaimsAgree(r1: TaskMap, r2: TaskMap, tasks: TaskMap, args: set<string>, key: string -> Result<string, Fault>, a1: string)
    requires Claimed(r1, tasks, args, key) && Claimed(r2, tasks, args, key)
    requires a1 in r1
    ensures exists a2 :: a2 in r2 && key(a2) == key(a1) && r2[a2] == r1[a1]
  {
    var k := key(a1).value;
    assert k in tasks.Keys * KeysOf(args, key);
    assert k in KeysOf(r2.Keys, key);
    var a2 :| a2 in r2.Keys && key(a2).Ok? && key(a2).value == k;
    assert key(a2) == key(a1);
  }

  /** The last component of `<d><sep><n>` starts just after the separator. */
  lemma ComponentStartAfter(d: string, sep: char, n: string)
    requires IsSeparator(sep)
    requires forall k :: 0 <= k < |n| ==> !IsSeparator(n[k])
    ensures ComponentStart(d + [sep] + n) == |d| + 1
  {
    var p := d + [sep] + n;
    var i := ComponentStart(p);
    assert p[|d|] == sep;
    assert i > |d|;
    assert IsSeparator(p[i - 1]);
  }

  /**
   * Only the last component of a path decides its key: a directory prefix
   * and its separator, '\' or '/', are ignored.
   */
  lemma FileKeyOfPath(d: string, sep: char, n: string)
    requires IsSeparator(sep)
    requires n != [] && forall k :: 0 <= k < |n| ==> !IsSeparator(n[k])
    ensures FileName(d + [sep] + n) == FileName(n)
    ensures FileKey(d + [sep] + n) == FileKey(n)
  {
    var p := d + [sep] + n;
    assert p[|p| - 1] == n[|n| - 1];
    assert TrimTrailingSeparators(p) == p;
    assert TrimTrailingSeparators(n) == n;
    ComponentStartAfter(d, sep, n);
    assert p[|d| + 1..] == n;
    assert ComponentStart(n) == 0;
    assert n[0..] == n;
  }

  /** A separator-free `stem.ext` is its own file name, and its stem is what stripping leaves. */
  lemma StemOfFileName(path: string, stem: string, ext: string)
    requires path == stem + "." + ext
    requires stem != [] && stem != "."
    requires forall i :: 0 <= i < |path| ==> !IsSeparator(path[i])
    requires '.' !in ext
    ensures FileName(path) == Ok(path)
    ensures StripExtension(path) == stem
    ensures FileKey(path) == KeyOfName(ReplaceAll(stem, "%4", "/"))
  {
    assert TrimTrailingSeparators(path) == path;
    ComponentStartWithoutSeparator(path);
    assert path[0..] == path;
    assert path[..|stem|] == stem;
    assert |stem| != 1 || stem[0] != '.';
    assert path[|stem|] == '.';
    forall k | |stem| < k < |path| ensures path[k] != '.' {
      assert path[k] == ext[k - |stem| - 1];
    }
    LastDotIs(path, |stem|);
  }

  /** A plain name drops its extension and gets "%4" turned back into "/". */
  lemma PlainFileKey(path: string, stem: string, ext: string)
    requires path == stem + "." + ext
    requires stem != [] && stem != "." && !(ARCHIVE_PREFIX <= ReplaceAll(stem, "%4", "/"))
    requires forall i :: 0 <= i < |path| ==> !IsSeparator(path[i])
    requires '.' !in ext
    ensures FileKey(path) == Ok(ReplaceAll(stem, "%4", "/"))
  {
    StemOfFileName(path, stem, ext);
  }

  /** An `Archive-<x>-<rest>.<ext>` file is keyed by x. */
  lemma ArchiveFileKey(path: string, x: string, rest: string, ext: string)
    requires path == ARCHIVE_PREFIX + x + "-" + rest + "." + ext
    requires x != [] && '-' !in x && '%' !in x && '%' !in rest
    requires forall i :: 0 <= i < |path| ==> !IsSeparator(path[i])
    requires '.' !in ext
    ensures FileKey(path) == Ok(x)
  {
    var stem := ARCHIVE_PREFIX + x + "-" + rest;
    assert path == stem + "." + ext;
    StemOfFileName(path, stem, ext);
    ArchiveStemUnescaped(x, rest);
    ArchiveCapture(x, rest);
  }

  /** An `Archive-<x>-<rest>` stem without '%' is its own unescaping and starts with the prefix. */
  lemma ArchiveStemUnescaped(x: string, rest: string)
    requires '%' !in x && '%' !in rest
    ensures ReplaceAll(ARCHIVE_PREFIX + x + "-" + rest, "%4", "/") == ARCHIVE_PREFIX + x + "-" + rest
    ensures ARCHIVE_PREFIX <= ARCHIVE_PREFIX + x + "-" + rest
  {
    var stem := ARCHIVE_PREFIX + x + "-" + rest;
    assert '%' !in stem;
    ReplaceNoLeadChar(stem, "", "%4", "/");
    assert stem + "" == stem;
    assert stem[..|ARCHIVE_PREFIX|] == ARCHIVE_PREFIX;
  }

  /** An `Archive-<x>.<ext>` file with no hyphen after the prefix makes the key derivation panic. */
  lemma ArchiveWithoutHyphenFileKey(path: string, x: string, ext: string)
    requires path == ARCHIVE_PREFIX + x + "." + ext
    requires '-' !in x && '%' !in x
    requires forall i :: 0 <= i < |path| ==> !IsSeparator(path[i])
    requires '.' !in ext
    ensures FileKey(path).Err? && FileKey(path).error.Panic?
  {
    var stem := ARCHIVE_PREFIX + x;
    assert path == stem + "." + ext;
    assert |stem| > 1;
    StemOfFileName(path, stem, ext);
    ArchiveNameWithoutHyphen(x);
  }

  /** `Archive-<x>` with no hyphen in x, once unescaped, has no capture. */
  lemma ArchiveNameWithoutHyphen(x: string)
    requires '-' !in x && '%' !in x
    ensures KeyOfName(ReplaceAll(ARCHIVE_PREFIX + x, "%4", "/")).Err?
    ensures KeyOfName(ReplaceAll(ARCHIVE_PREFIX + x, "%4", "/")).error.Panic?
  {
    var stem := ARCHIVE_PREFIX + x;
    assert '%' !in stem;
    ReplaceNoLeadChar(stem, "", "%4", "/");
    assert stem + "" == stem;
    assert stem[..|ARCHIVE_PREFIX|] == ARCHIVE_PREFIX;
    ArchiveWithoutHyphenPanics(x);
  }

  /** "Archive-Security-2023-01-01.evtx" is keyed "Security". */
  lemma ArchiveExample()
    ensures FileKey("Archive-Security-2023-01-01.evtx") == Ok("Security")
  {
    ArchiveFileKey("Archive-Security-2023-01-01.evtx", "Security", "2023-01-01", "evtx");
  }

  /** Unescaping `<a>%4<b>` with no '%' in a or b gives `<a>/<b>`. */
  lemma UnescapeOne(a: string, b: string)
    requires '%' !in a && '%' !in b
    ensures ReplaceAll(a + "%4" + b, "%4", "/") == a + "/" + b
  {
    var tail := "%4" + b;
    assert a + "%4" + b == a + tail;
    ReplaceNoLeadChar(a, tail, "%4", "/");
    assert tail[..2] == "%4" && tail[2..] == b;
    ReplaceNoLeadChar(b, "", "%4", "/");
    assert b + "" == b;
    assert ReplaceAll(tail, "%4", "/") == "/" + b;
  }

  /** A plain `<a>%4<b>.<ext>` file is keyed `<a>/<b>`. */
  lemma EscapedFileKey(path: string, a: string, b: string, ext: string)
    requires path == a + "%4" + b + "." + ext
    requires a != [] && '%' !in a && '%' !in b && !(ARCHIVE_PREFIX <= a + "/" + b)
    requires forall i :: 0 <= i < |path| ==> !IsSeparator(path[i])
    requires '.' !in ext
    ensures FileKey(path) == Ok(a + "/" + b)
  {
    var stem := a + "%4" + b;
    UnescapeOne(a, b);
    assert |stem| >= 3;
    PlainFileKey(path, stem, ext);
  }

  /** "MyApp%4Operational.evtx" is keyed "MyApp/Operational". */
  lemma PlainExample(path: string)
    requires path == "MyApp%4Operational.evtx"
    ensures FileKey(path) == Ok("MyApp/Operational")
  {
    assert path == "MyApp" + "%4" + "Operational" + "." + "evtx";
    assert "MyApp" + "/" + "Operational" == "MyApp/Operational";
    assert !(ARCHIVE_PREFIX <= "MyApp/Operational") by {
      assert "MyApp/Operational"[0] != ARCHIVE_PREFIX[0];
    }
    EscapedFileKey(path, "MyApp", "Operational", "evtx");
  }

  lemma {:induction false} LastDotIs(s: string, i: nat)
    requires i < |s| && s[i] == '.' && forall k :: i < k < |s| ==> s[k] != '.'
    ensures LastDot(s) == Some(i)
  {
    if i < |s| - 1 {
      LastDotIs(s[..|s| - 1], i);
    }
  }

  lemma {:induction false} ComponentStartWithoutSeparator(s: string)
    requires forall i :: 0 <= i < |s| ==> !IsSeparator(s[i])
    ensures ComponentStart(s) == 0
  {
    if s != [] {
      ComponentStartWithoutSeparator(s[..|s| - 1]);
    }
  }

  /** Text free of the pattern's first character passes through a replacement unchanged. */
  lemma {:induction false} ReplaceNoLeadChar(a: string, t: string, pat: string, rep: string)
    requires |pat| > 0 && pat[0] !in a
    ensures ReplaceAll(a + t, pat, rep) == a + ReplaceAll(t, pat, rep)
  {
    if a == [] {
      assert a + t == t;
    } else {
      var s := a + t;
      assert s[0] == a[0] && s[1..] == a[1..] + t;
      assert pat[0] !in a[1..] by {
        forall y | y in a[1..] ensures y in a { }
      }
      ReplaceNoLeadChar(a[1..], t, pat, rep);
      if |s| >= |pat| {
        assert s[..|pat|] != pat by { assert s[..|pat|][0] == a[0]; }
        assert ReplaceAll(s, pat, rep) == [a[0]] + ReplaceAll(a[1..] + t, pat, rep);
      } else {
        assert ReplaceAll(t, pat, rep) == t;
        assert ReplaceAll(a[1..] + t, pat, rep) == a[1..] + t;
      }
      assert a == [a[0]] + a[1..];
    }
  }

  /** `Archive-<x>-<rest>` with a hyphen-free, non-empty x has key x. */
  lemma ArchiveCapture(x: string, rest: string)
    requires x != [] && '-' !in x
    ensures FirstMatch(ARCHIVE_PREFIX + x + "-" + rest, 0) == Some(x)
  {
    var s := ARCHIVE_PREFIX + x + "-" + rest;
    assert s[0..|ARCHIVE_PREFIX|] == ARCHIVE_PREFIX;
    var j := |ARCHIVE_PREFIX|;
    forall k | j <= k < j + |x| ensures s[k] != '-' {
      assert s[k] == x[k - j];
    }
    assert s[j + |x|] == '-';
    NonHyphenRunIs(s, j, |x|);
    assert s[j..j + |x|] == x;
  }

  lemma {:induction false} NonHyphenRunIs(s: string, j: nat, n: nat)
    requires j + n < |s| && s[j + n] == '-'
    requires forall k :: j <= k < j + n ==> s[k] != '-'
    ensures NonHyphenRun(s, j) == n
    decreases n
  {
    if n > 0 {
      NonHyphenRunIs(s, j + 1, n - 1);
    }
  }

  /** `Archive-<x>` with no further hyphen has no match, so deriving its key panics. */
  lemma ArchiveWithoutHyphenPanics(x: string)
    requires '-' !in x
    ensures FirstMatch(ARCHIVE_PREFIX + x, 0).None?
  {
    var s := ARCHIVE_PREFIX + x;
    forall k | |ARCHIVE_PREFIX| <= k < |s| ensures s[k] != '-' {
      assert s[k] == x[k - |ARCHIVE_PREFIX|];
    }
    NoMatchFrom(s, 0);
  }

  lemma {:induction false} NoMatchFrom(s: string, i: nat)
    requires i <= |s| && |ARCHIVE_PREFIX| <= |s| && s[..|ARCHIVE_PREFIX|] == ARCHIVE_PREFIX
    requires forall k :: |ARCHIVE_PREFIX| <= k < |s| ==> s[k] != '-'
    ensures FirstMatch(s, i).None?
    decreases |s| - i
  {
    var p := |ARCHIVE_PREFIX|;
    if i == 0 {
      assert s[0..p] == ARCHIVE_PREFIX;
      var n := NonHyphenRun(s, p);
      assert p + n == |s|;
    } else if i + p <= |s| {
      assert s[i..i + p][p - 1] == s[i + p - 1] != '-';
      assert s[i..i + p] != ARCHIVE_PREFIX;
    }
    if i < |s| {
      NoMatchFrom(s, i + 1);
    }
  }
}
