/**
 What an entry name keeps of the key it is made from (backend/handler_objects.go, sanitizeZipEntryName
 and zipNamer), told by character codes and by the parts of the key.
 */
module ZipKeys {
  import opened ZipNames

  // ---- Keys as parts between slashes ----

  predicate NoSlash(seg: string) {
    forall c :: c in seg ==> c != '/'
  }

  predicate NoSlashes(segs: seq<string>) {
    forall k :: 0 <= k < |segs| ==> NoSlash(segs[k])
  }

  /** Every key is some parts with slashes between them. */
  lemma {:induction false} KeyIsJoined(key: string)
    ensures NoSlashes(Split(key)) && Join(Split(key)) == key
  {
    if key != "" {
      var rest := Split(key[1..]);
      KeyIsJoined(key[1..]);
      if key[0] == '/' {
        assert Split(key)[1..] == rest;
        assert "" + "/" + Join(rest) == ['/'] + Join(rest);
      } else {
        var first := [key[0]] + rest[0];
        assert Split(key) == [first] + rest[1..];
        JoinGrows(key[0], rest);
      }
    }
  }

  lemma Regroup(a: string, b: string, c: string, d: string)
    ensures a + b + c + d == a + (b + c + d)
  {
  }

  lemma JoinGrows(c: char, segs: seq<string>)
    requires segs != []
    ensures Join([[c] + segs[0]] + segs[1..]) == [c] + Join(segs)
  {
    if |segs| > 1 {
      var all, rest := [[c] + segs[0]] + segs[1..], Join(segs[1..]);
      assert all[1..] == segs[1..] && all[0] == [c] + segs[0];
      Regroup([c], segs[0], "/", rest);
    }
  }

  /** Two keys that differ only in which way some of their slashes lean. */
  ghost predicate SameButSlashes(a: string, b: string) {
    |a| == |b| && forall i :: 0 <= i < |a| ==> a[i] == b[i] || (a[i] in "/\\" && b[i] in "/\\")
  }

  /** A backslash is a slash. */
  lemma BackslashIsSlash(a: string, b: string)
    requires SameButSlashes(a, b)
    ensures Sanitize(a) == Sanitize(b)
  {
    assert Slashes(a) == Slashes(b);
  }

  // ---- What is left of a part ----

  /** The codes that are left out: below 0x20, and 0x7F. */
  predicate LeftOut(c: char) {
    (c as int) < 0x20 || (c as int) == 0x7F
  }

  /** The places in s, in order, of the elements of out, and of no others that are not to be dropped. */
  ghost predicate PickedAt<T(!new)>(s: seq<T>, drop: T -> bool, places: seq<nat>, out: seq<T>) {
    && |places| == |out|
    && (forall k, l :: 0 <= k < l < |places| ==> places[k] < places[l])
    && (forall k :: 0 <= k < |places| ==> places[k] < |s| && out[k] == s[places[k]] && !drop(out[k]))
    && (forall i :: 0 <= i < |s| ==> drop(s[i]) || i in places)
  }

  /** out is s, in order, without exactly the elements that are dropped. */
  ghost predicate Without<T(!new)>(s: seq<T>, drop: T -> bool, out: seq<T>) {
    exists places :: PickedAt(s, drop, places, out)
  }

  lemma DropOne<T(!new)>(s: seq<T>, drop: T -> bool, out: seq<T>, c: T)
    requires Without(s, drop, out) && drop(c)
    ensures Without(s + [c], drop, out)
  {
    var places :| PickedAt(s, drop, places, out);
    assert PickedAt(s + [c], drop, places, out);
  }

  lemma PickOne<T(!new)>(s: seq<T>, drop: T -> bool, out: seq<T>, c: T)
    requires Without(s, drop, out) && !drop(c)
    ensures Without(s + [c], drop, out + [c])
  {
    var places :| PickedAt(s, drop, places, out);
    PickedAppend(s, drop, places, out, c, |s|);
  }

  lemma PickedAppend<T(!new)>(s: seq<T>, drop: T -> bool, places: seq<nat>, out: seq<T>, c: T, n: nat)
    requires PickedAt(s, drop, places, out) && !drop(c) && n == |s|
    ensures PickedAt(s + [c], drop, places + [n], out + [c])
  {
    var t, all, more := s + [c], places + [n], out + [c];
    forall k | 0 <= k < |all| ensures all[k] < |t| && more[k] == t[all[k]] && !drop(more[k]) {
      if k < |places| {
        assert all[k] == places[k] && more[k] == out[k];
      }
    }
    forall i | 0 <= i < |t| ensures drop(t[i]) || i in all {
      if i < n {
        assert t[i] == s[i];
        assert drop(s[i]) || i in places;
      } else {
        assert all[|places|] == i;
      }
    }
  }

  lemma Assoc(a: string, b: string, c: string)
    ensures a + (b + c) == a + b + c
  {
  }

  lemma {:induction false} StripAppend(a: string, c: char)
    ensures Strip(a + [c]) == Strip(a) + if LeftOut(c) then "" else [c]
  {
    var s := a + [c];
    if a == "" {
      assert s[1..] == "";
      assert Strip(s) == (if IsControl(c) then "" else [c]) + Strip("");
    } else {
      assert s[1..] == a[1..] + [c];
      StripAppend(a[1..], c);
      Assoc(if IsControl(a[0]) then "" else [a[0]], Strip(a[1..]), if LeftOut(c) then "" else [c]);
    }
  }

  /** A part loses exactly its control characters. */
  lemma {:induction false} StripLeavesOut(seg: string, out: string)
    requires out == Strip(seg)
    ensures Without(seg, LeftOut, out)
  {
    if seg == "" {
      assert PickedAt(seg, LeftOut, [], out);
    } else {
      var n := |seg| - 1;
      var front, c := seg[..n], seg[n];
      var before := Strip(front);
      assert seg == front + [c];
      StripLeavesOut(front, before);
      StripAppend(front, c);
      if LeftOut(c) {
        assert before + "" == before;
        DropOne(front, LeftOut, before, c);
      } else {
        PickOne(front, LeftOut, before, c);
      }
    }
  }

  // ---- What is left of a key ----

  /** Parts that lead nowhere or up. */
  predicate Nowhere(seg: string) {
    seg in {"", ".", ".."}
  }

  /** The first part of a name loses the colon of a drive. */
  function NoDrive(seg: string): string {
    if |seg| >= 2 && seg[1] == ':' && (0x41 <= seg[0] as int <= 0x5A || 0x61 <= seg[0] as int <= 0x7A)
    then [seg[0], '_'] + seg[2..] else seg
  }

  /** The name made of these parts; a key that ends with a slash names a directory. */
  function NameOf(kept: seq<string>, isDir: bool): string {
    if kept == [] then ""
    else Join([NoDrive(kept[0])] + kept[1..]) + if isDir then "/" else ""
  }

  lemma {:induction false} CleanAppend(segs: seq<string>, seg: string)
    ensures Clean(segs + [seg]) == Clean(segs) + if Nowhere(Strip(seg)) then [] else [Strip(seg)]
  {
    var all := segs + [seg];
    if segs == [] {
      assert all[1..] == [];
      assert Clean(all) == (if Useless(Strip(seg)) then [] else [Strip(seg)]) + Clean([]);
    } else {
      assert all[1..] == segs[1..] + [seg];
      CleanAppend(segs[1..], seg);
    }
  }

  /** texts are the parts without their control characters. */
  ghost predicate AllWithoutControls(segs: seq<string>, texts: seq<string>) {
    |texts| == |segs| && forall k :: 0 <= k < |segs| ==> Without(segs[k], LeftOut, texts[k])
  }

  lemma OneMoreSegment(segs: seq<string>, seg: string, texts: seq<string>, text: string)
    requires AllWithoutControls(segs, texts) && Without(seg, LeftOut, text)
    ensures AllWithoutControls(segs + [seg], texts + [text])
  {
  }

  lemma {:induction false} CleanKeeps(segs: seq<string>, kept: seq<string>) returns (texts: seq<string>)
    requires kept == Clean(segs)
    ensures AllWithoutControls(segs, texts) && Without(texts, Nowhere, kept)
  {
    if segs == [] {
      texts := [];
      assert PickedAt([], Nowhere, [], []);
    } else {
      var n := |segs| - 1;
      var front, seg := segs[..n], segs[n];
      var before, text := Clean(front), Strip(seg);
      assert segs == front + [seg];
      var rest := CleanKeeps(front, before);
      StripLeavesOut(seg, text);
      CleanAppend(front, seg);
      OneMoreSegment(front, seg, rest, text);
      texts := rest + [text];
      if Nowhere(text) {
        assert before + [] == before;
        DropOne(rest, Nowhere, before, text);
      } else {
        PickOne(rest, Nowhere, before, text);
      }
    }
  }

  lemma SplitKey(segs: seq<string>, key: string)
    requires segs != [] && NoSlashes(segs) && key == Join(segs) && '\\' !in key
    ensures Slashes(key) == key && Split(key) == segs
  {
    forall k | 0 <= k < |segs| ensures '/' !in segs[k] {
      assert NoSlash(segs[k]);
    }
    SplitJoin(segs);
    SlashesSame(key);
  }

  lemma NameFromClean(key: string, kept: seq<string>)
    requires Slashes(key) == key && kept == Clean(Split(key))
    ensures Sanitize(key) == NameOf(kept, EndsWithSlash(key))
  {
    if kept != [] {
      assert NoDrive(kept[0]) == Undrive(kept[0]);
    }
  }

  /**
   For every key without backslashes, given by its parts: the name is made of the parts, each without
   exactly its control characters, in order, less those that lead nowhere or up.
   */
  lemma NameIsMadeOfParts(segs: seq<string>, key: string) returns (texts: seq<string>, kept: seq<string>)
    requires segs != [] && NoSlashes(segs) && key == Join(segs) && '\\' !in key
    ensures AllWithoutControls(segs, texts) && Without(texts, Nowhere, kept)
    ensures Sanitize(key) == NameOf(kept, EndsWithSlash(key))
  {
    kept := Clean(segs);
    texts := CleanKeeps(segs, kept);
    SplitKey(segs, key);
    NameFromClean(key, kept);
  }

  /** A part that stays as it is. */
  predicate Plain(seg: string) {
    !Nowhere(seg) && forall c :: c in seg ==> !LeftOut(c) && c != '/' && c != '\\'
  }

  lemma PlainIsGood(segs: seq<string>)
    requires segs != [] && (forall k :: 0 <= k < |segs| ==> Plain(segs[k])) && NoDrive(segs[0]) == segs[0]
    ensures GoodSegments(segs) && Undrive(segs[0]) == segs[0]
  {
    forall k | 0 <= k < |segs| ensures GoodSegment(segs[k]) {
      assert Plain(segs[k]);
    }
    DriveIsChanged(segs[0]);
  }

  lemma SanitizeGood(segs: seq<string>, name: string, isDir: bool, key: string)
    requires GoodSegments(segs) && Undrive(segs[0]) == segs[0] && name == Join(segs) && '\\' !in name
    requires key == name + (if isDir then "/" else "") && EndsWithSlash(key) == isDir
    ensures Sanitize(key) == key
  {
    CleanJoined(segs, isDir);
    SlashesSame(key);
    assert [segs[0]] + segs[1..] == segs;
  }

  /** A key of plain parts that begins with no drive is its own entry name, as a file or as a directory. */
  lemma PlainKeyIsKept(segs: seq<string>, name: string)
    requires segs != [] && (forall k :: 0 <= k < |segs| ==> Plain(segs[k])) && NoDrive(segs[0]) == segs[0]
    requires name == Join(segs)
    ensures Sanitize(name) == name && Sanitize(name + "/") == name + "/"
  {
    PlainIsGood(segs);
    JoinLast(segs);
    assert name + "" == name;
    SanitizeGood(segs, name, false, name);
    SanitizeGood(segs, name, true, name + "/");
  }

  lemma DriveIsChanged(seg: string)
    ensures HasDrive(seg) ==> NoDrive(seg) != seg
  {
    if HasDrive(seg) {
      assert NoDrive(seg)[1] == '_';
    }
  }

  // ---- What a numbered name keeps ----

  /** The number that a text of digits writes. */
  function Written(digits: string): int {
    if digits == "" then 0 else 10 * Written(digits[..|digits| - 1]) + (digits[|digits| - 1] as int - 0x30)
  }

  /** The decimal form is digits that write the number, without a zero in front. */
  lemma {:induction false} DecimalIsWritten(n: nat)
    ensures Written(Decimal(n)) == n && (forall c :: c in Decimal(n) ==> 0x30 <= c as int <= 0x39)
    ensures n > 0 ==> Decimal(n)[0] != '0'
  {
    var d := Decimal(n);
    if n < 10 {
      assert d[..0] == "" && Written(d) == 10 * Written("") + (d[0] as int - 0x30);
    } else {
      DecimalIsWritten(n / 10);
      assert d[..|d| - 1] == Decimal(n / 10);
    }
  }

  /** Where a name ends that has no slash behind dir. */
  lemma AfterLastSlash(dir: string, base: string)
    requires (dir == "" || dir[|dir| - 1] == '/') && NoSlash(base)
    ensures DirOf(dir + base) == dir && BaseOf(dir + base) == base
  {
    var name := dir + base;
    assert dir != "" ==> name[|dir| - 1] == '/';
    forall k | |dir| <= k < |name| ensures name[k] != '/' {
      assert name[k] == base[k - |dir|] && base[k - |dir|] in base;
    }
    assert AfterSlash(name, |name|) == |dir|;
  }

  lemma {:induction false} LastDot(stem: string, ext: string)
    requires '.' !in ext
    ensures ExtLength(stem + "." + ext) == |ext| + 1
    decreases |ext|
  {
    var base := stem + "." + ext;
    assert base[|stem|] == '.';
    if ext != "" {
      var n := |ext| - 1;
      assert base[..|base| - 1] == stem + "." + ext[..n];
      assert base[|base| - 1] == ext[n] && ext[n] in ext;
      LastDot(stem, ext[..n]);
    }
  }

  lemma PartsOfBase(stem: string, ext: string, base: string)
    requires base == stem + "." + ext && stem != "" && '.' !in ext
    ensures StemOf(base) == stem && ExtOf(base) == "." + ext
  {
    LastDot(stem, ext);
    assert base[..|base| - (|ext| + 1)] == stem;
    assert base[|stem|..] == "." + ext;
  }

  /** A number goes in front of the last dot of the base name. */
  lemma CandidateKeepsExtension(dir: string, stem: string, ext: string, base: string, i: nat)
    requires (dir == "" || dir[|dir| - 1] == '/') && NoSlash(stem) && NoSlash(ext) && stem != "" && '.' !in ext
    requires base == stem + "." + ext
    ensures Candidate(dir + base, i) == dir + (stem + " (" + Decimal(i) + ")" + ("." + ext))
  {
    AfterLastSlash(dir, base);
    PartsOfBase(stem, ext, base);
  }

  lemma {:induction false} NoDot(base: string)
    requires '.' !in base
    ensures ExtLength(base) == 0
  {
  }

  /** Without a dot, or with nothing in front of the last one, the whole base name is the stem. */
  lemma BareStem(base: string, dot: string, rest: string)
    requires base == dot + rest && '.' !in rest && (dot == "" || dot == ".")
    ensures StemOf(base) == base && ExtOf(base) == ""
  {
    if dot == "." {
      LastDot("", rest);
      assert base == "" + "." + rest;
      assert base[..0] == "";
    } else {
      assert base == rest;
      NoDot(base);
      assert base[..|base|] == base;
    }
  }

  /** Then the number goes behind the name. */
  lemma CandidateOfBareName(dir: string, dot: string, rest: string, i: nat)
    requires (dir == "" || dir[|dir| - 1] == '/') && NoSlash(rest) && '.' !in rest && (dot == "" || dot == ".")
    ensures Candidate(dir + (dot + rest), i) == dir + (dot + rest + " (" + Decimal(i) + ")")
  {
    var base := dot + rest;
    AfterLastSlash(dir, base);
    BareStem(base, dot, rest);
    assert base + " (" + Decimal(i) + ")" + "" == base + " (" + Decimal(i) + ")";
  }
}
