/**
 Writing a batch ZIP (backend/handler_objects.go, streamBatchZip): which entries it gets, and
 what becomes of every key asked for.
 */
module ZipArchive {
  import opened ZipNames

  datatype Copy = Copied | Broken(clientGone: bool)

  /** How S3 and the client behave for one key; length is 0 also when S3 does not say. */
  datatype Fetch = GetFailed(clientGone: bool) | Got(length: int, headerFails: bool, copy: Copy)

  /** What becomes of one key. */
  datatype Fate =
    | Folder(name: string)
    | RepeatedFolder(name: string)
    | File(name: string)
    | CutFile(name: string)
    | Missing

  /** The name asked of the namer for a key stored as a file. */
  function FileName(key: string): string {
    var name := Sanitize(key);
    var trimmed := if EndsWithSlash(name) then name[..|name| - 1] else name;
    if trimmed == "" then "unnamed" else trimmed
  }

  predicate IsFolderMarker(key: string, f: Fetch) {
    f.Got? && f.length == 0 && EndsWithSlash(Sanitize(key))
  }

  /** The name the namer gives when the names before are taken. */
  ghost predicate Given(before: seq<string>, wanted: string, name: string) {
    if wanted in before then IsFirstFree((set e | e in before), wanted, name) else name == wanted
  }

  /** The fate is the one the key must have, given the entries before it. */
  ghost predicate Fits(key: string, f: Fetch, fate: Fate, before: seq<string>) {
    if f.GetFailed? then fate == Missing
    else if IsFolderMarker(key, f) then
      fate == if Sanitize(key) in before then RepeatedFolder(Sanitize(key)) else Folder(Sanitize(key))
    else (if f.copy.Copied? then fate.File? else fate.CutFile?) && Given(before, FileName(key), fate.name)
  }

  ghost predicate AllFit(keys: seq<string>, fetch: nat -> Fetch, fates: seq<Fate>) {
    |fates| <= |keys| && forall i: nat :: i < |fates| ==> Fits(keys[i], fetch(i), fates[i], Entries(fates[..i]))
  }

  /** The entries the fates brought, in order. */
  function Entries(fates: seq<Fate>): seq<string> {
    if fates == [] then []
    else
      var last := fates[|fates| - 1];
      Entries(fates[..|fates| - 1]) + if last.Folder? || last.File? || last.CutFile? then [last.name] else []
  }

  /** The keys of the lines of _errors.txt. */
  function Lines(keys: seq<string>, fates: seq<Fate>): seq<string>
    requires |fates| <= |keys|
  {
    if fates == [] then []
    else
      var n := |fates| - 1;
      Lines(keys, fates[..n]) + if fates[n].Missing? || fates[n].CutFile? then [keys[n]] else []
  }

  ghost predicate Distinct(names: seq<string>) {
    forall i, j :: 0 <= i < j < |names| ==> names[i] != names[j]
  }

  ghost predicate AllSafe(names: seq<string>) {
    forall name :: name in names ==> SafeFile(name) || SafeDir(name)
  }

  /** Nothing cuts the archive off. */
  ghost predicate Undisturbed(n: nat, fetch: nat -> Fetch, gone: nat -> bool, lastHeaderFails: bool) {
    && !lastHeaderFails
    && (forall i: nat :: i < n ==> !gone(i) && Calm(fetch(i)))
  }

  predicate Calm(f: Fetch) {
    match f
    case GetFailed(clientGone) => !clientGone
    case Got(_, headerFails, copy) => !headerFails && (copy.Broken? ==> !copy.clientGone)
  }

  /** The kind of a fate follows from S3's answer, the last character of the name and the names taken. */
  lemma FateKinds(key: string, f: Fetch, fate: Fate, before: seq<string>)
    requires Fits(key, f, fate, before)
    ensures fate.Missing? <==> f.GetFailed?
    ensures fate.Folder? || fate.RepeatedFolder?
            <==> f.Got? && f.length == 0 && |Sanitize(key)| > 0 && Sanitize(key)[|Sanitize(key)| - 1] == '/'
    ensures fate.Folder? || fate.RepeatedFolder? ==>
              fate.name == Sanitize(key) && (fate.RepeatedFolder? <==> Sanitize(key) in before)
    ensures fate.CutFile? ==> f.copy.Broken?
    ensures fate.File? ==> f.copy.Copied?
  {
  }

  /** The key breaks the archive off: the client left, or a header could not be written. */
  predicate CutsOff(key: string, f: Fetch, before: seq<string>) {
    match f
    case GetFailed(clientGone) => clientGone
    case Got(length, headerFails, copy) =>
      var name := Sanitize(key);
      if length == 0 && |name| > 0 && name[|name| - 1] == '/' then headerFails && name !in before
      else headerFails || (copy.Broken? && copy.clientGone)
  }

  /** Key number i is dealt with: the client is still there and the archive does not break off. */
  ghost predicate DealtWith(keys: seq<string>, i: nat, fetch: nat -> Fetch, gone: nat -> bool, before: seq<string>) {
    i < |keys| && !gone(i) && !CutsOff(keys[i], fetch(i), before)
  }

  ghost predicate AllDealtWith(keys: seq<string>, fetch: nat -> Fetch, gone: nat -> bool, fates: seq<Fate>) {
    forall i: nat :: i < |fates| ==> DealtWith(keys, i, fetch, gone, Entries(fates[..i]))
  }

  /** The keys with a fate are exactly those in front of the first that breaks the archive off. */
  ghost predicate StopsThere(keys: seq<string>, fetch: nat -> Fetch, gone: nat -> bool, fates: seq<Fate>) {
    AllDealtWith(keys, fetch, gone, fates) &&
    (|fates| < |keys| ==> !DealtWith(keys, |fates|, fetch, gone, Entries(fates)))
  }

  lemma OneMoreDealtWith(keys: seq<string>, fetch: nat -> Fetch, gone: nat -> bool, fates: seq<Fate>, fate: Fate)
    requires AllDealtWith(keys, fetch, gone, fates) && DealtWith(keys, |fates|, fetch, gone, Entries(fates))
    ensures AllDealtWith(keys, fetch, gone, fates + [fate])
  {
    var all := fates + [fate];
    forall i: nat | i < |all| ensures DealtWith(keys, i, fetch, gone, Entries(all[..i])) {
      assert all[..i] == fates[..i];
      if i == |fates| {
        assert fates[..i] == fates;
      }
    }
  }

  lemma PlainSafe(s: string)
    requires |s| > 2 && forall i :: 0 <= i < |s| ==> 'a' <= s[i] <= 'z' || s[i] == '_' || s[i] == '.'
    ensures SafeFile(s)
  {
    SplitNoSlash(s);
  }

  lemma FixedNamesSafe()
    ensures SafeFile("unnamed") && SafeFile(ZIP_ERRORS_ENTRY)
  {
    PlainSafe("unnamed");
    PlainSafe(ZIP_ERRORS_ENTRY);
  }

  lemma FileNameSafe(key: string)
    ensures SafeFile(FileName(key))
  {
    FixedNamesSafe();
    SanitizedIsSafe(key);
    SplitNoSlash("");
  }

  lemma OneMoreFits(keys: seq<string>, fetch: nat -> Fetch, fates: seq<Fate>, fate: Fate)
    requires AllFit(keys, fetch, fates) && |fates| < |keys|
    requires Fits(keys[|fates|], fetch(|fates|), fate, Entries(fates))
    ensures AllFit(keys, fetch, fates + [fate])
  {
    var all := fates + [fate];
    forall i: nat | i < |all| ensures Fits(keys[i], fetch(i), all[i], Entries(all[..i])) {
      assert all[..i] == fates[..i];
      if i == |fates| {
        assert fates[..i] == fates;
      }
    }
  }

  /** A new entry: the namer's answer is safe and different from all before. */
  method AddFile(namer: ZipNamer, entries: seq<string>, wanted: string) returns (name: string)
    requires namer.used == set e | e in entries
    requires Distinct(entries) && AllSafe(entries) && SafeFile(wanted)
    modifies namer
    ensures namer.used == set e | e in entries + [name]
    ensures Distinct(entries + [name]) && AllSafe(entries + [name]) && Given(entries, wanted, name)
  {
    name := namer.Unique(wanted);
    if wanted in entries {
      ghost var used := (set e | e in entries);
      assert IsFirstFree(used, wanted, name);
      ghost var i: nat :| i >= 1 && name == Candidate(wanted, i) && AllUsed(used, wanted, i);
      CandidateSafe(wanted, i);
    }
  }

  /** The fate of one key; cut says that the archive breaks off here. */
  method AddKey(namer: ZipNamer, entries: seq<string>, key: string, f: Fetch)
    returns (now: seq<string>, fate: Fate, cut: bool)
    requires namer.used == set e | e in entries
    requires Distinct(entries) && AllSafe(entries)
    modifies namer
    ensures Distinct(now) && AllSafe(now) && entries <= now
    ensures cut <==> CutsOff(key, f, entries)
    ensures !cut ==> namer.used == set e | e in now
    ensures !cut ==> Fits(key, f, fate, entries)
    ensures !cut ==> now == entries + if fate.Folder? || fate.File? || fate.CutFile? then [fate.name] else []
  {
    now, fate, cut := entries, Missing, false;
    var name := SanitizeZipEntryName(key);
    if f.GetFailed? {
      return entries, Missing, f.clientGone;
    }
    if EndsWithSlash(name) {
      if f.length == 0 {
        var isNew := namer.ClaimDir(name);
        if !isNew {
          return entries, RepeatedFolder(name), false;
        }
        if f.headerFails {
          return entries, Missing, true;
        }
        SanitizedIsSafe(key);
        return entries + [name], Folder(name), false;
      }
      name := name[..|name| - 1];
    }
    if name == "" {
      name := "unnamed";
    }
    FileNameSafe(key);
    var unique := AddFile(namer, entries, name);
    if f.headerFails {
      return entries, Missing, true;
    }
    now := entries + [unique];
    if f.copy.Broken? {
      return now, CutFile(unique), f.copy.clientGone;
    }
    return now, File(unique), false;
  }

  /** What is true of the archive once the fates of the first keys are known. */
  ghost predicate Written(keys: seq<string>, fetch: nat -> Fetch, fates: seq<Fate>,
                          entries: seq<string>, failures: seq<string>)
  {
    && Distinct(entries) && AllSafe(entries)
    && AllFit(keys, fetch, fates)
    && entries == Entries(fates) && failures == Lines(keys, fates)
  }

  lemma WrittenMore(keys: seq<string>, fetch: nat -> Fetch, fates: seq<Fate>, entries: seq<string>,
                    failures: seq<string>, fate: Fate, now: seq<string>)
    requires Written(keys, fetch, fates, entries, failures) && |fates| < |keys|
    requires Fits(keys[|fates|], fetch(|fates|), fate, entries)
    requires Distinct(now) && AllSafe(now)
    requires now == entries + if fate.Folder? || fate.File? || fate.CutFile? then [fate.name] else []
    ensures Written(keys, fetch, fates + [fate], now,
                    if fate.Missing? || fate.CutFile? then failures + [keys[|fates|]] else failures)
  {
    OneMoreFits(keys, fetch, fates, fate);
    assert (fates + [fate])[..|fates|] == fates;
  }

  /** gone(i) says that the client has left by the time key number i is reached. */
  method WriteKeys(namer: ZipNamer, keys: seq<string>, fetch: nat -> Fetch, gone: nat -> bool)
    returns (entries: seq<string>, failures: seq<string>, cut: bool, ghost fates: seq<Fate>)
    requires namer.used == {}
    modifies namer
    ensures Distinct(entries) && AllSafe(entries)
    ensures AllFit(keys, fetch, fates) && failures == Lines(keys, fates)
    ensures !cut ==> |fates| == |keys| && entries == Entries(fates) && namer.used == set e | e in entries
    ensures StopsThere(keys, fetch, gone, fates) && (cut <==> |fates| < |keys|)
    ensures (forall i: nat :: i < |keys| ==> !gone(i) && Calm(fetch(i))) ==> !cut
  {
    entries, failures, cut, fates := [], [], false, [];
    var n := 0;
    while n < |keys|
      invariant n <= |keys| && |fates| == n
      invariant namer.used == set e | e in entries
      invariant Written(keys, fetch, fates, entries, failures) && AllDealtWith(keys, fetch, gone, fates)
    {
      if gone(n) {
        cut := true;
        return;
      }
      var now, fate;
      now, fate, cut := AddKey(namer, entries, keys[n], fetch(n));
      if cut {
        entries := now;
        return;
      }
      WrittenMore(keys, fetch, fates, entries, failures, fate, now);
      OneMoreDealtWith(keys, fetch, gone, fates, fate);
      if fate.Missing? || fate.CutFile? {
        failures := failures + [keys[n]];
      }
      entries, fates := now, fates + [fate];
      n := n + 1;
    }
  }

  /**
   entries are the names of the archive, failures the keys on the lines of _errors.txt; finished
   says that the archive was completed.
   */
  method StreamBatchZip(keys: seq<string>, fetch: nat -> Fetch, gone: nat -> bool, lastHeaderFails: bool)
    returns (entries: seq<string>, failures: seq<string>, finished: bool, ghost fates: seq<Fate>)
    ensures Distinct(entries) && AllSafe(entries)
    ensures AllFit(keys, fetch, fates)
    ensures failures == Lines(keys, fates)
    ensures Undisturbed(|keys|, fetch, gone, lastHeaderFails) ==> finished
    ensures StopsThere(keys, fetch, gone, fates)
    ensures finished <==> |fates| == |keys| && (failures == [] || !lastHeaderFails)
    ensures finished && failures == [] ==> entries == Entries(fates)
    ensures finished && failures != [] ==>
              entries != [] && entries[..|entries| - 1] == Entries(fates)
              && Given(Entries(fates), ZIP_ERRORS_ENTRY, entries[|entries| - 1])
  {
    var namer := new ZipNamer();
    var cut;
    entries, failures, cut, fates := WriteKeys(namer, keys, fetch, gone);
    if cut {
      return entries, failures, false, fates;
    }
    if |failures| > 0 {
      FixedNamesSafe();
      var unique := AddFile(namer, entries, ZIP_ERRORS_ENTRY);
      if lastHeaderFails {
        return entries, failures, false, fates;
      }
      entries := entries + [unique];
    }
    finished := true;
  }
}
