/**
 * The rename planner, `calculate_renames`: every configuration file name is
 * matched against the server dictionary and either gets a new name, with
 * `-{country}_{city}` inserted before its first `-`, or is listed as a
 * failure. The directory listing is abstracted to the sequence of names.
 */
module RenamePlan {
  import opened Wrappers
  import opened Text
  import opened ServerTable

  /** The text that precedes the server name in a configuration file name. */
  const Marker: string := "mullvad-"

  /** The extension that ends the server name. */
  const Extension: string := ".conf"

  /** One planned rename, the `{'old': ..., 'new': ...}` entries. */
  datatype Rename = Rename(oldName: string, newName: string)

  /** The `success` and `fail` lists, in listing order. */
  datatype Plan = Plan(success: seq<Rename>, fail: seq<string>)

  /** A server name missing from the dictionary: the uncaught `KeyError`. */
  datatype PlanError = UnknownServer(name: string)

  /** What the loop body does with one file. */
  datatype FileOutcome = Renamed(rename: Rename) | Failed(file: string) | Unknown(name: string)

  /**
   * `file.split('mullvad-')[1].split('.conf')[0]`; `None` stands for the
   * `IndexError` raised when there is no second piece.
   */
  function ExtractServerName(file: string): Option<string> {
    var parts := Split(file, Marker);
    if |parts| < 2 then None else Some(Split(parts[1], Extension)[0])
  }

  /** The f-string `-{country}_{city}`. */
  function InsertText(info: ServerInfo): string {
    "-" + info.country + "_" + info.city
  }

  /** `s[:i] + t + s[i:]` for an index inside `s`. */
  function InsertAt(s: string, i: int, t: string): (r: string)
    requires 0 <= i <= |s|
    ensures |r| == |s| + |t|
    ensures r[i..i + |t|] == t
    ensures r[..i] + r[i + |t|..] == s
  {
    var r := s[..i] + t + s[i..];
    assert r[..i] == s[..i] && r[i + |t|..] == s[i..];
    r
  }

  /** One pass of the loop body of `calculate_renames`. */
  function PlanFile(file: string, servers: ServerMap): FileOutcome {
    match ExtractServerName(file)
    case None => Failed(file)
    case Some(name) =>
      if name !in servers then Unknown(name)
      else
        var insert := InsertText(servers[name]);
        var i := IndexOf(file, "-");
        if i == -1 then Failed(file)
        else Renamed(Rename(file, InsertAt(file, i, insert)))
  }

  /**
   * The lists the loop accumulates over `files`, or the error of the first
   * file whose server name is not in the dictionary.
   */
  function PlanRenames(files: seq<string>, servers: ServerMap): Result<Plan, PlanError>
    decreases |files|
  {
    if files == [] then
      Ok(Plan([], []))
    else
      var last := |files| - 1;
      match PlanRenames(files[..last], servers)
      case Err(e) => Err(e)
      case Ok(plan) =>
        match PlanFile(files[last], servers)
        case Renamed(r) => Ok(plan.(success := plan.success + [r]))
        case Failed(f) => Ok(plan.(fail := plan.fail + [f]))
        case Unknown(name) => Err(UnknownServer(name))
  }

  /** The loop of `calculate_renames` over the directory listing. */
  method CalculateRenames(files: seq<string>, servers: ServerMap) returns (result: Result<Plan, PlanError>)
    ensures result == PlanRenames(files, servers)
  {
    var success: seq<Rename> := [];
    var fail: seq<string> := [];
    for i := 0 to |files|
      invariant PlanRenames(files[..i], servers) == Ok(Plan(success, fail))
    {
      assert files[..i + 1][..i] == files[..i];
      var file := files[i];
      var extracted := ExtractServerName(file);
      if extracted.None? {
        fail := fail + [file];
        continue;
      }
      var name := extracted.value;
      if name !in servers {
        PlanErrorPersists(files, i + 1, servers);
        return Err(UnknownServer(name));
      }
      var info := servers[name];
      var insert := "-" + info.country + "_" + info.city;
      var dash := IndexOf(file, "-");
      if dash == -1 {
        fail := fail + [file];
        continue;
      }
      var renamed := file[..dash] + insert + file[dash..];
      success := success + [Rename(file, renamed)];
    }
    assert files[..|files|] == files;
    return Ok(Plan(success, fail));
  }

  // ---------------------------------------------------------------------------
  // One file

  /**
   * Extraction fails exactly when the file name lacks `mullvad-`. Otherwise
   * the name is the text right after the first `mullvad-`, holds neither
   * `mullvad-` nor `.conf`, and ends at the end of the file name or where a
   * `.conf` or a further `mullvad-` begins.
   */
  lemma ExtractServerNameSpec(file: string)
    ensures ExtractServerName(file).None? <==> !Contains(file, Marker)
    ensures ExtractServerName(file).Some? ==>
      var name, start := ExtractServerName(file).value, IndexOf(file, Marker) + |Marker|;
      && 0 <= IndexOf(file, Marker)
      && start + |name| <= |file| && file[start..start + |name|] == name
      && !Contains(name, Marker) && !Contains(name, Extension)
      && (start + |name| == |file|
          || OccursAt(file, Extension, start + |name|)
          || OccursAt(file, Marker, start + |name|))
  {
    SplitCount(file, Marker);
    if Contains(file, Marker) {
      SecondPieceHead(file, Marker, Extension);
    }
  }

  /**
   * Once a name is extracted the file holds a `-` (the one ending `mullvad-`
   * at the latest), so `file.find('-')` cannot return -1.
   */
  lemma DashBeforeServerName(file: string)
    requires ExtractServerName(file).Some?
    ensures 0 <= IndexOf(file, "-") <= IndexOf(file, Marker) + |Marker| - 1
  {
    ExtractServerNameSpec(file);
    var k := IndexOf(file, Marker);
    assert file[k + 7..k + 8] == file[k..k + 8][7..8] == "-";
    assert OccursAt(file, "-", k + 7);
  }

  /**
   * A file fails exactly when it lacks `mullvad-`, and plans the uncaught
   * error exactly when its extracted server name is not in the dictionary;
   * the `find('-') == -1` branch is never taken.
   */
  lemma PlanFileOutcome(file: string, servers: ServerMap)
    ensures PlanFile(file, servers) == Failed(file) <==> !Contains(file, Marker)
    ensures PlanFile(file, servers).Unknown? <==>
      ExtractServerName(file).Some? && ExtractServerName(file).value !in servers
    ensures PlanFile(file, servers).Unknown? ==> PlanFile(file, servers).name == ExtractServerName(file).value
    ensures PlanFile(file, servers).Renamed? ==> PlanFile(file, servers).rename.oldName == file
  {
    ExtractServerNameSpec(file);
    if ExtractServerName(file).Some? {
      DashBeforeServerName(file);
    }
  }

  /** A file is renamed at its first `-`. */
  lemma RenamedAtFirstDash(file: string, servers: ServerMap)
    requires PlanFile(file, servers).Renamed?
    ensures var i := IndexOf(file, "-");
      0 <= i < |file| && file[i] == '-' && '-' !in file[..i]
  {
    PlanFileRenamed(file, servers);
    FirstChar(file, "-");
  }

  /**
   * A planned new name is the old one with `-{country}_{city}` inserted at
   * the first `-`: it is longer by exactly that text, the text stands at
   * that index, and deleting it gives the old name back.
   */
  lemma RenamedInsertion(file: string, servers: ServerMap)
    requires PlanFile(file, servers).Renamed?
    ensures ExtractServerName(file).Some? && ExtractServerName(file).value in servers
    ensures
      var info := servers[ExtractServerName(file).value];
      var insert := "-" + info.country + "_" + info.city;
      var i := IndexOf(file, "-");
      var renamed := PlanFile(file, servers).rename.newName;
      && |renamed| == |file| + 2 + |info.country| + |info.city|
      && renamed[i..i + |insert|] == insert
      && renamed[..i] + renamed[i + |insert|..] == file
  {
    PlanFileRenamed(file, servers);
  }

  /**
   * The server name survives intact in the new name, at its old index moved
   * right by the length of the inserted text.
   */
  lemma RenamedKeepsServerName(file: string, servers: ServerMap)
    requires PlanFile(file, servers).Renamed?
    ensures ExtractServerName(file).Some? && ExtractServerName(file).value in servers
    ensures
      var name := ExtractServerName(file).value;
      var insert := InsertText(servers[name]);
      var renamed := PlanFile(file, servers).rename.newName;
      OccursAt(renamed, name, IndexOf(file, Marker) + |Marker| + |insert|)
  {
    PlanFileRenamed(file, servers);
    var name := ExtractServerName(file).value;
    var insert := InsertText(servers[name]);
    var i := IndexOf(file, "-");
    ExtractServerNameSpec(file);
    var start := IndexOf(file, Marker) + |Marker|;
    DashBeforeServerName(file);
    assert i <= start;
    assert OccursAt(file, name, start);
    InsertAtKeepsLater(file, i, insert, name, start);
    assert PlanFile(file, servers).rename.newName == InsertAt(file, i, insert);
  }

  /** The rename the loop body plans, read off its definition. */
  lemma PlanFileRenamed(file: string, servers: ServerMap)
    requires PlanFile(file, servers).Renamed?
    ensures ExtractServerName(file).Some? && ExtractServerName(file).value in servers
    ensures IndexOf(file, "-") != -1
    ensures PlanFile(file, servers).rename ==
      var info := servers[ExtractServerName(file).value];
      Rename(file, InsertAt(file, IndexOf(file, "-"), InsertText(info)))
  {
  }

  /** Text after the insertion point moves right by the inserted length. */
  lemma InsertAtKeepsLater(s: string, i: int, t: string, p: string, j: int)
    requires 0 <= i <= j && OccursAt(s, p, j)
    ensures OccursAt(InsertAt(s, i, t), p, j + |t|)
  {
    var r := InsertAt(s, i, t);
    assert r[i + |t|..] == s[i..];
    assert r[j + |t|..j + |t| + |p|] == r[i + |t|..][j - i..j - i + |p|];
  }

  // ---------------------------------------------------------------------------
  // The whole listing

  /** The lookup `server_dict[server_name]` cannot raise for this file. */
  predicate Known(file: string, servers: ServerMap) {
    ExtractServerName(file).Some? ==> ExtractServerName(file).value in servers
  }

  /** Every file either lacks `mullvad-` or names a server in the dictionary. */
  predicate AllKnown(files: seq<string>, servers: ServerMap) {
    forall j :: 0 <= j < |files| ==> Known(files[j], servers)
  }

  /** The files whose names hold `mullvad-`, in listing order. */
  function MarkedFiles(files: seq<string>): seq<string>
    decreases |files|
  {
    if files == [] then []
    else
      var last := files[|files| - 1];
      MarkedFiles(files[..|files| - 1]) + (if Contains(last, Marker) then [last] else [])
  }

  /** The files whose names lack `mullvad-`, in listing order. */
  function UnmarkedFiles(files: seq<string>): seq<string>
    decreases |files|
  {
    if files == [] then []
    else
      var last := files[|files| - 1];
      UnmarkedFiles(files[..|files| - 1]) + (if Contains(last, Marker) then [] else [last])
  }

  /** The old names of a list of renames. */
  function OldNames(renames: seq<Rename>): (olds: seq<string>)
    ensures |olds| == |renames|
    ensures forall k :: 0 <= k < |renames| ==> olds[k] == renames[k].oldName
  {
    seq(|renames|, k requires 0 <= k < |renames| => renames[k].oldName)
  }

  /** Marked and unmarked files together are the listing, each file once. */
  lemma {:induction false} MarkedPartition(files: seq<string>)
    ensures |MarkedFiles(files)| + |UnmarkedFiles(files)| == |files|
    ensures multiset(MarkedFiles(files)) + multiset(UnmarkedFiles(files)) == multiset(files)
    decreases |files|
  {
    if files != [] {
      var init := files[..|files| - 1];
      var last := files[|files| - 1];
      MarkedPartition(init);
      assert files == init + [last];
      if Contains(last, Marker) {
        assert MarkedFiles(files) == MarkedFiles(init) + [last];
        assert UnmarkedFiles(files) == UnmarkedFiles(init);
      } else {
        assert MarkedFiles(files) == MarkedFiles(init);
        assert UnmarkedFiles(files) == UnmarkedFiles(init) + [last];
      }
    }
  }

  /** Once a prefix of the listing has failed, the whole plan fails the same way. */
  lemma {:induction false} PlanErrorPersists(files: seq<string>, n: nat, servers: ServerMap)
    requires n <= |files| && PlanRenames(files[..n], servers).Err?
    ensures PlanRenames(files, servers) == PlanRenames(files[..n], servers)
    decreases |files| - n
  {
    if n < |files| {
      assert files[..|files| - 1][..n] == files[..n];
      PlanErrorPersists(files[..|files| - 1], n, servers);
    } else {
      assert files[..n] == files;
    }
  }

  /**
   * The plan fails exactly when some file names a server missing from the
   * dictionary, and then it reports the first such file's server name.
   */
  lemma {:induction false} PlanRenamesError(files: seq<string>, servers: ServerMap)
    ensures PlanRenames(files, servers).Ok? <==> AllKnown(files, servers)
    ensures PlanRenames(files, servers).Err? ==>
      exists j :: 0 <= j < |files| && AllKnown(files[..j], servers) &&
        ExtractServerName(files[j]) == Some(PlanRenames(files, servers).error.name) &&
        PlanRenames(files, servers).error.name !in servers
    decreases |files|
  {
    if files != [] {
      var last := |files| - 1;
      var init := files[..last];
      PlanRenamesError(init, servers);
      AllKnownSnoc(files, servers);
      PlanFileOutcome(files[last], servers);
      if PlanRenames(init, servers).Err? {
        var name := PlanRenames(init, servers).error.name;
        var j :| 0 <= j < |init| && AllKnown(init[..j], servers) &&
          ExtractServerName(init[j]) == Some(name) && name !in servers;
        assert init[..j] == files[..j] && init[j] == files[j];
      } else if PlanFile(files[last], servers).Unknown? {
        assert files[..last] == init;
      }
    }
  }

  /** A listing is all known when its prefix is and its last file is. */
  lemma AllKnownSnoc(files: seq<string>, servers: ServerMap)
    requires |files| > 0
    ensures AllKnown(files, servers) <==>
      AllKnown(files[..|files| - 1], servers) && Known(files[|files| - 1], servers)
  {
    var init := files[..|files| - 1];
    if AllKnown(init, servers) && Known(files[|files| - 1], servers) {
      forall j | 0 <= j < |files| ensures Known(files[j], servers) {
        if j < |init| {
          assert files[j] == init[j];
        }
      }
    }
    if AllKnown(files, servers) {
      forall j | 0 <= j < |init| ensures Known(init[j], servers) {
        assert files[j] == init[j];
      }
    }
  }

  /**
   * A successful plan lists as failures exactly the files without
   * `mullvad-`, and renames exactly the others, both in listing order; every
   * rename is the one the loop body computes for its file.
   */
  lemma {:induction false} PlanRenamesPartition(files: seq<string>, servers: ServerMap)
    requires PlanRenames(files, servers).Ok?
    ensures var plan := PlanRenames(files, servers).value;
      && plan.fail == UnmarkedFiles(files)
      && OldNames(plan.success) == MarkedFiles(files)
      && forall k :: 0 <= k < |plan.success| ==>
           PlanFile(plan.success[k].oldName, servers) == Renamed(plan.success[k])
    decreases |files|
  {
    if files != [] {
      var last := |files| - 1;
      var init := files[..last];
      PlanRenamesPartition(init, servers);
      PlanFileOutcome(files[last], servers);
      var plan := PlanRenames(init, servers).value;
      var full := PlanRenames(files, servers).value;
      match PlanFile(files[last], servers)
      case Renamed(r) =>
        assert full.success == plan.success + [r];
        assert OldNames(full.success) == OldNames(plan.success) + [r.oldName];
      case Failed(f) =>
        assert full.success == plan.success;
      case Unknown(_) =>
    }
  }

  /**
   * A successful plan has one entry per file: the failures and the old
   * names of the renames together are the listing, each file exactly once.
   */
  lemma PlanRenamesCounts(files: seq<string>, servers: ServerMap)
    requires AllKnown(files, servers)
    ensures PlanRenames(files, servers).Ok?
    ensures var plan := PlanRenames(files, servers).value;
      && |plan.success| + |plan.fail| == |files|
      && multiset(OldNames(plan.success)) + multiset(plan.fail) == multiset(files)
  {
    PlanRenamesError(files, servers);
    PlanRenamesPartition(files, servers);
    MarkedPartition(files);
  }
}
