/**
 Names inside a batch ZIP (backend/handler_objects.go): turning an S3 key into a name that
 stays inside the extraction directory, and handing every entry a name of its own.
 */
module ZipNames {

  const ZIP_ERRORS_ENTRY := "_errors.txt"

  predicate IsControl(c: char) {
    c < ' ' || c == '\U{7f}'
  }

  predicate IsLetter(c: char) {
    ('A' <= c <= 'Z') || ('a' <= c <= 'z')
  }

  /** strings.Split(s, "/"). */
  function Split(s: string): (segs: seq<string>)
    ensures |segs| >= 1
  {
    if s == "" then [""]
    else
      var rest := Split(s[1..]);
      if s[0] == '/' then [""] + rest else [[s[0]] + rest[0]] + rest[1..]
  }

  /** strings.Join(segs, "/"). */
  function Join(segs: seq<string>): string {
    if segs == [] then "" else if |segs| == 1 then segs[0] else segs[0] + "/" + Join(segs[1..])
  }

  /** strings.ReplaceAll(s, "\\", "/"). */
  function Slashes(s: string): string {
    seq(|s|, i requires 0 <= i < |s| => if s[i] == '\\' then '/' else s[i])
  }

  predicate EndsWithSlash(s: string) {
    s != "" && s[|s| - 1] == '/'
  }

  function Strip(seg: string): string {
    if seg == "" then "" else (if IsControl(seg[0]) then "" else [seg[0]]) + Strip(seg[1..])
  }

  predicate Useless(seg: string) {
    seg == "" || seg == "." || seg == ".."
  }

  predicate HasDrive(seg: string) {
    |seg| >= 2 && seg[1] == ':' && IsLetter(seg[0])
  }

  /** The segments without control characters, and without those that then lead nowhere or up. */
  function Clean(segs: seq<string>): seq<string> {
    if segs == [] then []
    else (if Useless(Strip(segs[0])) then [] else [Strip(segs[0])]) + Clean(segs[1..])
  }

  function Undrive(seg: string): string {
    if HasDrive(seg) then seg[..1] + "_" + seg[2..] else seg
  }

  function Sanitize(key: string): string {
    var k := Slashes(key);
    var out := Clean(Split(k));
    if out == [] then ""
    else Join([Undrive(out[0])] + out[1..]) + if EndsWithSlash(k) then "/" else ""
  }

  method SanitizeZipEntryName(key: string) returns (name: string)
    ensures name == Sanitize(key)
  {
    var k := Slashes(key);
    var isDir := EndsWithSlash(k);
    var out := CleanSegments(Split(k));
    if |out| == 0 {
      return "";
    }
    var first := out[0];
    ghost var clean := out;
    if |first| >= 2 && first[1] == ':' && IsLetter(first[0]) {
      out := out[0 := first[..1] + "_" + first[2..]];
    }
    assert out == [Undrive(clean[0])] + clean[1..];
    name := Join(out);
    if isDir {
      name := name + "/";
    } else {
      assert name + "" == name;
    }
  }

  lemma CleanStep(out: seq<string>, segs: seq<string>, i: nat)
    requires i < |segs|
    ensures out + Clean(segs[i..])
         == (if Useless(Strip(segs[i])) then out else out + [Strip(segs[i])]) + Clean(segs[i + 1..])
  {
    assert segs[i..][1..] == segs[i + 1..];
  }

  lemma StripStep(r: string, seg: string, i: nat)
    requires i < |seg|
    ensures r + Strip(seg[i..]) == (if IsControl(seg[i]) then r else r + [seg[i]]) + Strip(seg[i + 1..])
  {
    assert seg[i..][1..] == seg[i + 1..];
  }

  method CleanSegments(segs: seq<string>) returns (out: seq<string>)
    ensures out == Clean(segs)
  {
    out := [];
    var i := 0;
    while i < |segs|
      invariant i <= |segs|
      invariant out + Clean(segs[i..]) == Clean(segs)
    {
      CleanStep(out, segs, i);
      var seg := StripControls(segs[i]);
      if !(seg == "" || seg == "." || seg == "..") {
        out := out + [seg];
      }
      i := i + 1;
    }
  }

  method StripControls(seg: string) returns (r: string)
    ensures r == Strip(seg)
  {
    r := "";
    var i := 0;
    while i < |seg|
      invariant i <= |seg|
      invariant r + Strip(seg[i..]) == Strip(seg)
    {
      StripStep(r, seg, i);
      if !IsControl(seg[i]) {
        r := r + [seg[i]];
      }
      i := i + 1;
    }
  }

  // ---- What a safe name is ----

  /** A segment that names something below the directory it is in. */
  predicate GoodSegment(seg: string) {
    !Useless(seg) && forall c :: c in seg ==> c != '/' && c != '\\' && !IsControl(c)
  }

  predicate GoodSegments(segs: seq<string>) {
    |segs| > 0 && (forall i :: 0 <= i < |segs| ==> GoodSegment(segs[i])) && !HasDrive(segs[0])
  }

  /** A relative file name that cannot leave the extraction directory. */
  predicate SafeFile(name: string) {
    GoodSegments(Split(name))
  }

  predicate SafeDir(name: string) {
    EndsWithSlash(name) && SafeFile(name[..|name| - 1])
  }

  lemma {:induction false} SplitNoSlash(s: string)
    requires '/' !in s
    ensures Split(s) == [s]
  {
    if s != "" {
      assert s[0] in s && '/' !in s[1..];
      SplitNoSlash(s[1..]);
      assert [s[0]] + s[1..] == s;
    }
  }

  lemma {:induction false} SplitAppend(a: string, b: string)
    ensures Split(a + "/" + b) == Split(a) + Split(b)
  {
    var s := a + "/" + b;
    if a == "" {
      assert s[1..] == b;
    } else {
      assert s[1..] == a[1..] + "/" + b;
      SplitAppend(a[1..], b);
    }
  }

  lemma {:induction false} SplitJoin(segs: seq<string>)
    requires |segs| > 0 && forall i :: 0 <= i < |segs| ==> '/' !in segs[i]
    ensures Split(Join(segs)) == segs
  {
    SplitNoSlash(segs[0]);
    if |segs| > 1 {
      SplitJoin(segs[1..]);
      SplitAppend(segs[0], Join(segs[1..]));
      assert [segs[0]] + segs[1..] == segs;
    }
  }

  lemma {:induction false} SplitChars(s: string, bad: char)
    requires bad !in s
    ensures forall i :: 0 <= i < |Split(s)| ==> '/' !in Split(s)[i] && bad !in Split(s)[i]
  {
    if s != "" {
      SplitChars(s[1..], bad);
    }
  }

  lemma {:induction false} StripChars(seg: string)
    ensures forall c :: c in Strip(seg) <==> c in seg && !IsControl(c)
  {
    if seg != "" {
      StripChars(seg[1..]);
      assert seg == [seg[0]] + seg[1..];
    }
  }

  lemma {:induction false} StripSame(seg: string)
    requires forall c :: c in seg ==> !IsControl(c)
    ensures Strip(seg) == seg
  {
    if seg != "" {
      StripSame(seg[1..]);
    }
  }

  lemma {:induction false} CleanGood(segs: seq<string>)
    requires forall i :: 0 <= i < |segs| ==> '/' !in segs[i] && '\\' !in segs[i]
    ensures forall i :: 0 <= i < |Clean(segs)| ==> GoodSegment(Clean(segs)[i])
  {
    if segs != [] {
      StripChars(segs[0]);
      CleanGood(segs[1..]);
    }
  }

  lemma {:induction false} CleanSame(segs: seq<string>)
    requires forall i :: 0 <= i < |segs| ==> GoodSegment(segs[i])
    ensures Clean(segs) == segs && Clean(segs + [""]) == segs
  {
    if segs != [] {
      StripSame(segs[0]);
      CleanSame(segs[1..]);
      assert (segs + [""])[1..] == segs[1..] + [""];
    } else {
      assert segs + [""] == [""];
    }
  }

  /** The segments a sanitized name is made of. */
  function Segments(key: string): seq<string> {
    var out := Clean(Split(Slashes(key)));
    if out == [] then [] else [Undrive(out[0])] + out[1..]
  }

  lemma SegmentsGood(key: string)
    ensures Segments(key) != [] ==> GoodSegments(Segments(key))
    ensures Sanitize(key) == if Segments(key) == []
        then "" else Join(Segments(key)) + if EndsWithSlash(Slashes(key)) then "/" else ""
  {
    SplitChars(Slashes(key), '\\');
    CleanGood(Split(Slashes(key)));
    var out := Clean(Split(Slashes(key)));
    if out != [] {
      var u := Undrive(out[0]);
      if HasDrive(out[0]) {
        assert u[1] == '_';
        forall c | c in u ensures c == '_' || c in out[0] {
        }
      }
    }
  }

  lemma {:induction false} JoinLast(segs: seq<string>)
    requires |segs| > 0 && forall i :: 0 <= i < |segs| ==> GoodSegment(segs[i])
    ensures Join(segs) != "" && !EndsWithSlash(Join(segs)) && '\\' !in Join(segs)
  {
    if |segs| > 1 {
      JoinLast(segs[1..]);
    } else {
      assert segs[0][|segs[0]| - 1] in segs[0];
    }
  }

  /** A sanitized name is empty, a safe file name, or a safe directory name. */
  lemma SanitizedIsSafe(key: string)
    ensures Sanitize(key) == "" || (SafeFile(Sanitize(key)) && !EndsWithSlash(Sanitize(key))) || SafeDir(Sanitize(key))
  {
    SegmentsGood(key);
    var segs := Segments(key);
    if segs != [] {
      SplitJoin(segs);
      JoinLast(segs);
      var name := Sanitize(key);
      if EndsWithSlash(Slashes(key)) {
        assert name[..|name| - 1] == Join(segs);
      } else {
        assert name == Join(segs);
      }
    }
  }

  lemma SlashesSame(s: string)
    requires '\\' !in s
    ensures Slashes(s) == s
  {
  }

  /** Cleaning a name joined from good segments gives the segments back. */
  lemma CleanJoined(segs: seq<string>, isDir: bool)
    requires GoodSegments(segs)
    ensures Clean(Split(Join(segs) + if isDir then "/" else "")) == segs
  {
    SplitJoin(segs);
    CleanSame(segs);
    var name := Join(segs);
    if isDir {
      assert name + "/" + "" == name + "/";
      SplitAppend(name, "");
      assert Split("") == [""];
    } else {
      assert name + "" == name;
    }
  }

  /** Sanitizing twice is sanitizing once. */
  lemma SanitizeIdempotent(key: string)
    ensures Sanitize(Sanitize(key)) == Sanitize(key)
  {
    SegmentsGood(key);
    var segs, name := Segments(key), Sanitize(key);
    if segs == [] {
      assert Split("") == [""];
      assert Clean([""]) == [];
    } else {
      JoinLast(segs);
      CleanJoined(segs, EndsWithSlash(Slashes(key)));
      SlashesSame(name);
      assert [Undrive(segs[0])] + segs[1..] == segs;
    }
  }

  // ---- Names that are different from each other ----

  /** Where the part after the last slash before position i begins. */
  function AfterSlash(name: string, i: nat): (r: nat)
    requires i <= |name|
    ensures r <= i && (forall k :: r <= k < i ==> name[k] != '/') && (r > 0 ==> name[r - 1] == '/')
  {
    if i == 0 then 0 else if name[i - 1] == '/' then i else AfterSlash(name, i - 1)
  }

  /** path.Split: the directory part up to and with the last slash, and the rest. */
  function DirOf(name: string): string {
    name[..AfterSlash(name, |name|)]
  }

  function BaseOf(name: string): string {
    name[AfterSlash(name, |name|)..]
  }

  /** The length of path.Ext of a name without slashes: from its last dot on. */
  function ExtLength(base: string): (n: nat)
    ensures n <= |base|
  {
    if '.' !in base then 0
    else if base[|base| - 1] == '.' then 1
    else 1 + ExtLength(base[..|base| - 1])
  }

  /** The name without its extension; a dotfile such as ".env" is all stem. */
  function StemOf(base: string): string {
    var stem := base[..|base| - ExtLength(base)];
    if stem == "" then base else stem
  }

  function ExtOf(base: string): string {
    base[|StemOf(base)|..]
  }

  function Digit(d: nat): char
    requires d < 10
  {
    "0123456789"[d]
  }

  /** %d */
  function Decimal(n: nat): (r: string)
    ensures r != "" && forall c :: c in r ==> '0' <= c <= '9'
  {
    if n < 10 then [Digit(n)] else Decimal(n / 10) + [Digit(n % 10)]
  }

  /** A base name with " (n)" before its extension. */
  function Numbered(base: string, i: nat): string {
    StemOf(base) + " (" + Decimal(i) + ")" + ExtOf(base)
  }

  function Candidate(name: string, i: nat): string {
    DirOf(name) + Numbered(BaseOf(name), i)
  }

  lemma {:induction false} DecimalInjective(i: nat, j: nat)
    requires Decimal(i) == Decimal(j)
    ensures i == j
    decreases i
  {
    var a, b := Decimal(i), Decimal(j);
    assert a[|a| - 1] == Digit(i % 10) && b[|b| - 1] == Digit(j % 10);
    assert i % 10 == j % 10;
    if i >= 10 && j >= 10 {
      assert Decimal(i / 10) == a[..|a| - 1] == b[..|b| - 1] == Decimal(j / 10);
      DecimalInjective(i / 10, j / 10);
    }
  }

  lemma NumberedInjective(base: string, i: nat, j: nat)
    requires Numbered(base, i) == Numbered(base, j)
    ensures i == j
  {
    var before, after := StemOf(base) + " (", ")" + ExtOf(base);
    assert Numbered(base, i) == before + Decimal(i) + after;
    assert Numbered(base, j) == before + Decimal(j) + after;
    Cancel(before, Decimal(i), Decimal(j), after);
    DecimalInjective(i, j);
  }

  lemma CandidateInjective(name: string, i: nat, j: nat)
    requires Candidate(name, i) == Candidate(name, j)
    ensures i == j
  {
    var dir, base := DirOf(name), BaseOf(name);
    assert Numbered(base, i) == Candidate(name, i)[|dir|..];
    assert Numbered(base, j) == Candidate(name, j)[|dir|..];
    NumberedInjective(base, i, j);
  }

  lemma Cancel(before: string, a: string, b: string, after: string)
    requires before + a + after == before + b + after
    ensures a == b
  {
    assert |before + a + after| == |before + b + after|;
    assert a == (before + a + after)[|before|..|before| + |a|];
    assert b == (before + b + after)[|before|..|before| + |b|];
  }

  /** zipNamer: hands out entry names, each once. */
  class ZipNamer {
    var used: set<string>

    constructor ()
      ensures used == {}
    {
      used := {};
    }

    method ClaimDir(name: string) returns (isNew: bool)
      modifies this
      ensures isNew == (name !in old(used)) && used == old(used) + {name}
    {
      if name in used {
        return false;
      }
      used := used + {name};
      return true;
    }

    /**
     The name itself if nobody has it, and otherwise the first free candidate. The search has
     no bound of its own: it ends because the candidates tried are all different and all used.
     */
    method Unique(name: string) returns (r: string)
      modifies this
      ensures r !in old(used) && used == old(used) + {r}
      ensures if name in old(used) then IsFirstFree(old(used), name, r) else r == name
    {
      if name !in used {
        used := used + {name};
        return name;
      }
      var i := 1;
      while Candidate(name, i) in used
        invariant i >= 1 && used == old(used)
        invariant AllUsed(used, name, i)
        decreases |used| - i
      {
        i := i + 1;
        PigeonHole(used, name, i);
      }
      r := Candidate(name, i);
      used := used + {r};
    }
  }

  ghost predicate AllUsed(used: set<string>, name: string, i: nat) {
    forall j: nat :: 1 <= j < i ==> Candidate(name, j) in used
  }

  /** r is the candidate with the smallest number that is not used. */
  ghost predicate IsFirstFree(used: set<string>, name: string, r: string) {
    exists i: nat :: i >= 1 && r == Candidate(name, i) && AllUsed(used, name, i)
  }

  /** Different candidates take up different places in the set. */
  lemma {:induction false} PigeonHole(used: set<string>, name: string, i: nat)
    requires i >= 1 && AllUsed(used, name, i)
    ensures i - 1 <= |used|
    decreases i
  {
    if i > 1 {
      var rest := used - {Candidate(name, i - 1)};
      forall j: nat | 1 <= j < i - 1 ensures Candidate(name, j) in rest {
        if Candidate(name, j) == Candidate(name, i - 1) {
          CandidateInjective(name, j, i - 1);
        }
      }
      PigeonHole(rest, name, i - 1);
    }
  }

  /** Inserting " (n)" keeps a segment good, and gives it no drive prefix it did not have. */
  lemma NumberedSegment(base: string, i: nat)
    requires GoodSegment(base)
    ensures GoodSegment(Numbered(base, i)) && (!HasDrive(base) ==> !HasDrive(Numbered(base, i)))
  {
    var stem, ext := StemOf(base), ExtOf(base);
    var seg := Numbered(base, i);
    assert base == stem + ext && |stem| > 0;
    assert seg[|stem|] == ' ' && seg[|stem| + 1] == '(';
    forall c | c in seg ensures c != '/' && c != '\\' && !IsControl(c) {
      assert c in stem || c in " (" || c in Decimal(i) || c in ")" || c in ext;
      assert c in stem || c in ext ==> c in base;
    }
    if HasDrive(seg) && |stem| >= 2 {
      assert seg[0] == base[0] && seg[1] == base[1];
    }
  }

  /** The last segment of a safe name may be replaced by another good one. */
  lemma ReplaceLast(dir: string, base: string, seg: string)
    requires SafeFile(dir + "/" + base) && '/' !in base
    ensures GoodSegment(base) && (GoodSegment(seg) ==> SafeFile(dir + "/" + seg))
  {
    SplitNoSlash(base);
    SplitAppend(dir, base);
    var segs := Split(dir);
    assert (segs + [base])[|segs|] == base;
    forall j | 0 <= j < |segs| ensures GoodSegment(segs[j]) {
      assert segs[j] == (segs + [base])[j];
    }
    if GoodSegment(seg) {
      SplitNoSlash(seg);
      SplitAppend(dir, seg);
    }
  }

  lemma PlainNumbered(base: string, i: nat)
    requires SafeFile(base) && '/' !in base
    ensures SafeFile(Numbered(base, i))
  {
    SplitNoSlash(base);
    NumberedSegment(base, i);
    SplitNoSlash(Numbered(base, i));
  }

  lemma CandidateSafe(name: string, i: nat)
    requires SafeFile(name)
    ensures SafeFile(Candidate(name, i))
  {
    var d, base := AfterSlash(name, |name|), BaseOf(name);
    if d == 0 {
      assert name == base;
      PlainNumbered(base, i);
      assert Candidate(name, i) == Numbered(base, i);
    } else {
      var dir := name[..d - 1];
      assert DirOf(name) == dir + "/" && name == DirOf(name) + base;
      ReplaceLast(dir, base, Numbered(base, i));
      NumberedSegment(base, i);
    }
  }
}
