/** Choosing the newest benchmark artifact by name (scripts/check_docs.py): `_bench` takes the last of a
    sorted glob, and `check_bench_kinds_do_not_shadow` is what makes that the right file. */
module BenchNames {
  import opened Text
  import opened Ordering

  // ----- names -------------------------------------------------------------------------------------

  /** When an artifact was made: `YYYYmmdd` and `HHMMSS`. */
  datatype Stamp = Stamp(date: string, time: string)

  datatype Artifact = Artifact(kind: string, stamp: Stamp)

  predicate KindChar(c: char) {
    'a' <= c <= 'z' || IsDigit(c) || c == '-'
  }

  predicate IsKind(kind: string) {
    kind != "" && forall i :: 0 <= i < |kind| ==> KindChar(kind[i])
  }

  predicate IsStamp(s: Stamp) {
    |s.date| == 8 && |s.time| == 6 && AllDigits(s.date) && AllDigits(s.time)
  }

  function StampText(s: Stamp): string {
    s.date + ("T" + (s.time + "Z.json"))
  }

  function Name(a: Artifact): string {
    a.kind + ("-" + StampText(a.stamp))
  }

  /** `^(kind)-\d{8}T\d{6}Z\.json$`: the stamp's width is fixed, so there is one way to read a name. */
  function Parse(name: string): (a: Option<Artifact>)
    ensures a.Some? ==> IsKind(a.value.kind) && IsStamp(a.value.stamp)
  {
    var k := |name| - 22;
    if k < 1 then None
    else
      var a := Artifact(name[..k], Stamp(name[k + 1..k + 9], name[k + 10..k + 16]));
      if IsKind(a.kind) && IsStamp(a.stamp) && name[k] == '-' && name[k + 9] == 'T' && name[k + 16..] == "Z.json"
      then Some(a)
      else None
  }

  /** Reading undoes writing, both ways. */
  lemma ParseIsName(name: string, a: Artifact)
    ensures Parse(name) == Some(a) <==> IsKind(a.kind) && IsStamp(a.stamp) && name == Name(a)
  {
    if IsKind(a.kind) && IsStamp(a.stamp) && name == Name(a) {
      NameParts(a);
    }
    if Parse(name) == Some(a) {
      var k := |name| - 22;
      NameWhole(name, k, a);
    }
  }

  lemma NameParts(a: Artifact)
    requires IsStamp(a.stamp)
    ensures var name, k := Name(a), |a.kind|;
            && |name| == k + 22 && name[..k] == a.kind && name[k] == '-' && name[k + 1..k + 9] == a.stamp.date
            && name[k + 9] == 'T' && name[k + 10..k + 16] == a.stamp.time && name[k + 16..] == "Z.json"
  {
  }

  lemma NameWhole(name: string, k: nat, a: Artifact)
    requires |name| == k + 22 && a == Artifact(name[..k], Stamp(name[k + 1..k + 9], name[k + 10..k + 16]))
    requires name[k] == '-' && name[k + 9] == 'T' && name[k + 16..] == "Z.json"
    ensures name == Name(a)
  {
    hide Name, StampText;
    HeadCut(name, k);
    CharCut(name, k);
    StampWhole(name, k, a.stamp);
    NameIs(a);
  }

  lemma NameIs(a: Artifact)
    ensures Name(a) == a.kind + ("-" + StampText(a.stamp))
  {
  }

  lemma StampWhole(name: string, k: nat, s: Stamp)
    requires |name| == k + 22 && s == Stamp(name[k + 1..k + 9], name[k + 10..k + 16])
    requires name[k + 9] == 'T' && name[k + 16..] == "Z.json"
    ensures name[k + 1..] == StampText(s)
  {
    TailCut(name, k + 1, k + 9);
    CharCut(name, k + 9);
    TailCut(name, k + 10, k + 16);
  }

  lemma HeadCut(s: string, k: nat)
    requires k <= |s|
    ensures s == s[..k] + s[k..]
  {
  }

  lemma TailCut(s: string, i: nat, j: nat)
    requires i <= j <= |s|
    ensures s[i..] == s[i..j] + s[j..]
  {
  }

  lemma CharCut(s: string, i: nat)
    requires i < |s|
    ensures s[i..] == [s[i]] + s[i + 1..]
  {
  }

  predicate EarlierThan(s: Stamp, t: Stamp)
    requires IsStamp(s) && IsStamp(t)
  {
    Number(s.date) < Number(t.date) || (Number(s.date) == Number(t.date) && Number(s.time) < Number(t.time))
  }

  /** Within a kind, names are ordered as the times they are stamped with. */
  lemma NameOrder(kind: string, s: Stamp, t: Stamp)
    requires IsStamp(s) && IsStamp(t)
    ensures Less(Name(Artifact(kind, s)), Name(Artifact(kind, t))) <==> EarlierThan(s, t)
  {
    hide Less, Number, AllDigits;
    LessTotal("Z.json", "Z.json");
    LessTotal(kind, kind);
    LessTotal("-", "-");
    LessTotal("T", "T");
    LessByFront(kind, kind, "-" + StampText(s), "-" + StampText(t));
    LessByFront("-", "-", StampText(s), StampText(t));
    LessByFront(s.date, t.date, "T" + (s.time + "Z.json"), "T" + (t.time + "Z.json"));
    LessByFront("T", "T", s.time + "Z.json", t.time + "Z.json");
    LessByFront(s.time, t.time, "Z.json", "Z.json");
    FixedWidthOrder(s.date, t.date);
    FixedWidthOrder(s.time, t.time);
  }

  // ----- choosing ----------------------------------------------------------------------------------

  predicate EndsWith(s: string, end: string) {
    |end| <= |s| && s[|s| - |end|..] == end
  }

  /** A name matches `{kind}-*.json`. */
  predicate Matches(kind: string, name: string) {
    |name| >= |kind| + 6 && kind + "-" <= name && EndsWith(name, ".json")
  }

  function Glob(kind: string, files: seq<string>): seq<string> {
    if files == [] then []
    else if Matches(kind, files[0]) then [files[0]] + Glob(kind, files[1..])
    else Glob(kind, files[1..])
  }

  lemma {:induction false} GlobMembers(kind: string, files: seq<string>, name: string)
    ensures name in Glob(kind, files) <==> name in files && Matches(kind, name)
  {
    hide Matches;
    if files != [] {
      GlobMembers(kind, files[1..], name);
      assert files == [files[0]] + files[1..];
    }
  }

  /** `_bench`: the last of the sorted glob. */
  function Bench(kind: string, files: seq<string>): Option<string> {
    var found := Sorted(Glob(kind, files));
    if found == [] then None else Some(found[|found| - 1])
  }

  /** Some artifact of this kind is there. */
  ghost predicate Present(kind: string, files: seq<string>) {
    exists f :: f in files && KindOf(f) == Some(kind)
  }

  function KindOf(name: string): Option<string> {
    if Parse(name).Some? then Some(Parse(name).value.kind) else None
  }

  predicate Shadows(short: string, long: string) {
    short + "-" <= long
  }

  ghost predicate AllStamped(files: seq<string>) {
    forall f | f in files && EndsWith(f, ".json") :: Parse(f).Some?
  }

  ghost predicate NoShadow(files: seq<string>) {
    forall short, long | Present(short, files) && Present(long, files) :: !Shadows(short, long)
  }

  /** Every kind's glob selects that kind's artifacts and no others. */
  ghost predicate GlobsExact(files: seq<string>) {
    forall kind, f | Present(kind, files) && f in files :: Matches(kind, f) <==> KindOf(f) == Some(kind)
  }

  lemma StampHasNoDash(s: Stamp)
    requires IsStamp(s)
    ensures |StampText(s)| == 21 && forall i :: 0 <= i < 21 ==> StampText(s)[i] != '-'
    ensures EndsWith(StampText(s), ".json")
  {
    var text := StampText(s);
    forall i | 0 <= i < 21
      ensures text[i] != '-'
    {
      assert i < 8 ==> text[i] == s.date[i];
      assert 9 <= i < 15 ==> text[i] == s.time[i - 9];
      assert 15 <= i ==> text[i] == "Z.json"[i - 15];
    }
  }

  /** A stamped name matches a kind's glob when it is of that kind, or of a kind that one shadows: a stamp
      holds no dash, so no longer kind's glob reaches it. */
  lemma MatchesKind(kind: string, a: Artifact)
    requires IsStamp(a.stamp)
    ensures Matches(kind, Name(a)) <==> kind == a.kind || Shadows(kind, a.kind)
  {
    var name, n := Name(a), |a.kind|;
    var text := StampText(a.stamp);
    StampHasNoDash(a.stamp);
    assert name[n] == '-' && forall i :: n < i < |name| ==> name[i] == text[i - n - 1];
    if kind + "-" <= name {
      assert (kind + "-")[|kind|] == name[|kind|] == '-';
      assert |kind| <= n;
      assert kind == name[..|kind|] == a.kind[..|kind|];
      if |kind| < n {
        assert a.kind[|kind|] == '-';
      }
    }
    if kind == a.kind || Shadows(kind, a.kind) {
      assert |name| == n + 22 && name[n + 1..] == text;
      assert name[|name| - 5..] == text[16..];
    }
  }

  lemma MatchesJson(kind: string, name: string)
    ensures Matches(kind, name) ==> EndsWith(name, ".json")
  {
  }

  /** Among stamped artifacts, no kind shadows another exactly when every glob is exact. */
  lemma NoShadowIsExact(files: seq<string>)
    requires AllStamped(files)
    ensures NoShadow(files) <==> GlobsExact(files)
  {
    hide Matches, Parse;
    forall kind, f | f in files
      ensures Matches(kind, f) <==> KindOf(f) == Some(kind) || (KindOf(f).Some? && Shadows(kind, KindOf(f).value))
    {
      if Parse(f).Some? {
        var a := Parse(f).value;
        ParseIsName(f, a);
        StampValid(f);
        MatchesKind(kind, a);
      } else {
        MatchesJson(kind, f);
      }
    }
    if GlobsExact(files) {
      forall short, long | Present(short, files) && Present(long, files)
        ensures !Shadows(short, long)
      {
        var f :| f in files && KindOf(f) == Some(long);
        assert Matches(short, f) <==> KindOf(f) == Some(short);
      }
    }
    if NoShadow(files) {
      forall kind, f | Present(kind, files) && f in files
        ensures Matches(kind, f) <==> KindOf(f) == Some(kind)
      {
        assert KindOf(f).Some? ==> Present(KindOf(f).value, files);
      }
    }
  }

  /** What `_bench` is for: the artifact of exactly this kind that no artifact of the kind is later than. */
  ghost predicate IsNewest(kind: string, files: seq<string>, name: string) {
    && name in files && KindOf(name) == Some(kind)
    && forall f | f in files && KindOf(f) == Some(kind) :: !EarlierThan(Parse(name).value.stamp, Parse(f).value.stamp)
  }

  ghost predicate BenchRight(kind: string, files: seq<string>) {
    Bench(kind, files).Some? && IsNewest(kind, files, Bench(kind, files).value)
  }

  /** With exact globs `_bench` gives the newest artifact of every kind there is. */
  lemma BenchIsNewest(kind: string, files: seq<string>)
    requires GlobsExact(files) && Present(kind, files)
    ensures Bench(kind, files).Some? && IsNewest(kind, files, Bench(kind, files).value)
  {
    hide Matches, Parse, IsStamp, Less, Sorted, Glob;
    var found := Glob(kind, files);
    var one :| one in files && KindOf(one) == Some(kind);
    GlobMembers(kind, files, one);
    LastIsGreatest(found);
    var last := Bench(kind, files).value;
    GlobMembers(kind, files, last);
    forall f | f in files && KindOf(f) == Some(kind)
      ensures !EarlierThan(Parse(last).value.stamp, Parse(f).value.stamp)
    {
      GlobMembers(kind, files, f);
      OrderOfNames(kind, last, f);
    }
  }

  lemma OrderOfNames(kind: string, f: string, g: string)
    requires KindOf(f) == Some(kind) && KindOf(g) == Some(kind)
    ensures EarlierThan(Parse(f).value.stamp, Parse(g).value.stamp) <==> Less(f, g)
  {
    hide Less, Number;
    ParseIsName(f, Parse(f).value);
    ParseIsName(g, Parse(g).value);
    NameOrder(kind, Parse(f).value.stamp, Parse(g).value.stamp);
  }

  // ----- when a shadow does harm -------------------------------------------------------------------

  /** A file of kind `short-rest` against one of kind `short`: what follows the dash decides. */
  lemma IntruderOrder(short: string, rest: string, s: Stamp, t: Stamp)
    ensures Less(Name(Artifact(short, s)), Name(Artifact(short + "-" + rest, t))) <==>
              Less(StampText(s), rest + ("-" + StampText(t)))
  {
    hide Less, StampText;
    var a, b := StampText(s), rest + ("-" + StampText(t));
    Assoc(short + "-", rest, "-" + StampText(t));
    Assoc(short, "-", a);
    LessTotal(short + "-", short + "-");
    LessByFront(short + "-", short + "-", a, b);
  }

  /** How far two strings agree. */
  function Shared(a: string, b: string): (k: nat)
    ensures k <= |a| && k <= |b| && a[..k] == b[..k]
    ensures k < |a| && k < |b| ==> a[k] != b[k]
  {
    if a == "" || b == "" || a[0] != b[0] then 0 else 1 + Shared(a[1..], b[1..])
  }

  lemma SharedAt(a: string, b: string)
    ensures forall i :: 0 <= i < Shared(a, b) ==> a[i] == b[i]
  {
    var k := Shared(a, b);
    assert forall i :: 0 <= i < k ==> a[i] == a[..k][i] && b[i] == b[..k][i];
  }

  lemma {:induction false} LessAt(a: string, b: string, k: nat)
    requires k < |a| && k < |b| && a[..k] == b[..k] && a[k] != b[k]
    ensures Less(a, b) <==> a[k] < b[k]
  {
    if k > 0 {
      assert a[..k][0] == b[..k][0];
      assert a[1..][..k - 1] == a[..k][1..] && b[1..][..k - 1] == b[..k][1..];
      LessAt(a[1..], b[1..], k - 1);
    }
  }

  predicate KindChars(s: string) {
    forall i :: 0 <= i < |s| ==> KindChar(s[i])
  }

  /** What a date and a kind's own part are compared by: no part reaches past the date's `T`. */
  lemma DecidedWithin(date: string, rest: string)
    requires |date| == 8 && AllDigits(date) && KindChars(rest)
    ensures Shared(date + "T", rest + "-") <= 8 && Shared(date + "T", rest + "-") <= |rest|
  {
    var a, b := date + "T", rest + "-";
    var k := Shared(a, b);
    var n := |rest|;
    SharedAt(a, b);
    assert n >= 8 ==> b[8] == (if n == 8 then '-' else rest[8]) && a[8] == 'T' && b[8] != a[8];
    assert n < 8 ==> b[n] == '-' && IsDigit(a[n]) && b[n] != a[n];
  }

  /** Whether an intruder's file sorts above a file it shadows: the first place where its own part, closed by
      a dash, differs from the date, closed by its `T`, decides. So a part that begins with a letter always
      wins, one that is empty or begins with a dash never does, and one that begins with a digit goes by that
      digit or, where it is the year's first, by what comes behind. */
  lemma IntruderWins(short: string, rest: string, s: Stamp, t: Stamp)
    requires IsStamp(s) && KindChars(rest)
    ensures var wins := Less(Name(Artifact(short, s)), Name(Artifact(short + "-" + rest, t)));
            var date, part := s.date + "T", rest + "-";
            var k := Shared(date, part);
            && k < |date| && k < |part| && (wins <==> date[k] < part[k])
            && (rest != "" && 'a' <= rest[0] <= 'z' ==> wins)
            && (rest == "" || rest[0] == '-' ==> !wins)
            && (rest != "" && rest[0] == s.date[0] ==> k > 0)
            && (rest != "" && IsDigit(rest[0]) && rest[0] != s.date[0] ==> (wins <==> s.date[0] < rest[0]))
  {
    hide Less, Name;
    var date, part := s.date + "T", rest + "-";
    var k := Shared(date, part);
    IntruderOrder(short, rest, s, t);
    DecidedWithin(s.date, rest);
    DecidedAt(s, rest, t, k);
    assert part[0] == if rest == "" then '-' else rest[0];
    assert IsDigit(s.date[0]);
    if k > 0 {
      assert date[..k][0] == part[..k][0];
    }
  }

  lemma DecidedAt(s: Stamp, rest: string, t: Stamp, k: nat)
    requires |s.date| == 8
    requires var date, part := s.date + "T", rest + "-";
             k < 9 && k <= |rest| && date[..k] == part[..k] && date[k] != part[k]
    ensures Less(StampText(s), rest + ("-" + StampText(t))) <==> (s.date + "T")[k] < (rest + "-")[k]
  {
    var date, part := s.date + "T", rest + "-";
    var a, b := StampText(s), rest + ("-" + StampText(t));
    hide Less, StampText;
    StampStart(s);
    Assoc(rest, "-", StampText(t));
    KeepFront(date, a[9..], k);
    KeepFront(part, StampText(t), k);
    assert a == date + a[9..] && b == part + StampText(t);
    LessAt(a, b, k);
  }

  lemma StampStart(s: Stamp)
    requires |s.date| == 8
    ensures |StampText(s)| >= 9 && StampText(s) == (s.date + "T") + StampText(s)[9..]
  {
    Assoc(s.date, "T", s.time + "Z.json");
    assert ((s.date + "T") + (s.time + "Z.json"))[9..] == s.time + "Z.json";
  }

  lemma KeepFront(a: string, x: string, k: nat)
    requires k < |a|
    ensures (a + x)[..k] == a[..k] && (a + x)[k] == a[k]
  {
  }

  /** Kind `asgi-2x` begins with the year's first digit, and its older run wins all the same. */
  lemma EqualDigitWins(s: Stamp, t: Stamp)
    requires IsStamp(s) && s.date == "20260829"
    ensures Less(Name(Artifact("asgi", s)), Name(Artifact("asgi-2x", t)))
  {
    hide Less, Name;
    IntruderWins("asgi", "2x", s, t);
    var date, part := s.date + "T", "2x" + "-";
    assert date[0] == part[0] && date[1] == '0' && part[1] == 'x';
    SharedIs(date, part, 1);
    assert "asgi" + "-" + "2x" == "asgi-2x";
  }

  lemma SharedIs(a: string, b: string, k: nat)
    requires k < |a| && k < |b| && a[..k] == b[..k] && a[k] != b[k]
    ensures Shared(a, b) == k
  {
    var n := Shared(a, b);
    SharedAt(a, b);
    assert forall i :: 0 <= i < k ==> a[..k][i] == a[i] && b[..k][i] == b[i];
  }

  /** An intruder: a file of a kind that `kind` is a dash-prefix of, sorting above the stamp `newest` has. */
  predicate Outsorts(kind: string, newest: Stamp, file: string) {
    && KindOf(file).Some? && Shadows(kind, KindOf(file).value)
    && var rest := KindOf(file).value[|kind| + 1..];
    Less(StampText(newest), rest + ("-" + StampText(Parse(file).value.stamp)))
  }

  lemma OutsortsIs(kind: string, newest: string, file: string)
    requires KindOf(newest) == Some(kind) && KindOf(file).Some? && Shadows(kind, KindOf(file).value)
    ensures Outsorts(kind, Parse(newest).value.stamp, file) <==> Less(newest, file)
  {
    var a, b := Parse(newest).value, Parse(file).value;
    var rest := b.kind[|kind| + 1..];
    ParseIsName(newest, a);
    ParseIsName(file, b);
    assert b.kind == kind + "-" + rest;
    hide Less, Parse, StampText, Name;
    IntruderOrder(kind, rest, a.stamp, b.stamp);
  }

  /** The artifacts of one kind. */
  function Own(kind: string, files: seq<string>): seq<string> {
    if files == [] then []
    else if KindOf(files[0]) == Some(kind) then [files[0]] + Own(kind, files[1..])
    else Own(kind, files[1..])
  }

  lemma {:induction false} OwnMembers(kind: string, files: seq<string>, name: string)
    ensures name in Own(kind, files) <==> name in files && KindOf(name) == Some(kind)
  {
    hide KindOf;
    if files != [] {
      OwnMembers(kind, files[1..], name);
      assert files == [files[0]] + files[1..];
    }
  }

  /** A kind that is present has a newest artifact, and only one. */
  lemma NewestExists(kind: string, files: seq<string>) returns (newest: string)
    requires Present(kind, files)
    ensures IsNewest(kind, files, newest)
  {
    hide Parse, IsStamp, Less, Sorted, Own;
    var one :| one in files && KindOf(one) == Some(kind);
    OwnMembers(kind, files, one);
    LastIsGreatest(Own(kind, files));
    newest := Sorted(Own(kind, files))[|Sorted(Own(kind, files))| - 1];
    OwnMembers(kind, files, newest);
    forall f | f in files && KindOf(f) == Some(kind)
      ensures !EarlierThan(Parse(newest).value.stamp, Parse(f).value.stamp)
    {
      OwnMembers(kind, files, f);
      OrderOfNames(kind, newest, f);
    }
  }

  lemma NewestUnique(kind: string, files: seq<string>, f: string, g: string)
    requires IsNewest(kind, files, f) && IsNewest(kind, files, g)
    ensures f == g
  {
    hide Parse, IsStamp, Less;
    OrderOfNames(kind, f, g);
    OrderOfNames(kind, g, f);
    LessTotal(f, g);
  }

  /** What the glob of a kind holds, among stamped artifacts. */
  lemma InGlob(kind: string, files: seq<string>, f: string)
    requires AllStamped(files)
    ensures f in Glob(kind, files) <==>
      f in files && KindOf(f).Some? && (KindOf(f).value == kind || Shadows(kind, KindOf(f).value))
  {
    hide Matches, Parse;
    GlobMembers(kind, files, f);
    if f in files {
      if Parse(f).Some? {
        var a := Parse(f).value;
        ParseIsName(f, a);
        StampValid(f);
        MatchesKind(kind, a);
      } else {
        MatchesJson(kind, f);
      }
    }
  }

  /** When `_bench` is right: it gives the newest artifact of a kind exactly when no artifact of a kind it
      shadows sorts above that one. */
  lemma BenchRightExactly(kind: string, files: seq<string>, newest: string)
    requires AllStamped(files) && IsNewest(kind, files, newest)
    ensures Bench(kind, files).Some?
    ensures var right := IsNewest(kind, files, Bench(kind, files).value);
            && (right <==> Bench(kind, files) == Some(newest))
            && (right <==> !exists g :: g in files && Outsorts(kind, Parse(newest).value.stamp, g))
  {
    hide Parse, Less, Sorted, Glob, Outsorts, AllStamped, IsNewest;
    NewestParts(kind, files, newest);
    InGlob(kind, files, newest);
    LastIsGreatest(Glob(kind, files));
    var last := Bench(kind, files).value;
    InGlob(kind, files, last);
    LessTotal(last, newest);
    if IsNewest(kind, files, last) {
      NewestUnique(kind, files, last, newest);
    }
    if g :| g in files && Outsorts(kind, Parse(newest).value.stamp, g) {
      OutsortsShadows(kind, Parse(newest).value.stamp, g);
      OutsortsIs(kind, newest, g);
      InGlob(kind, files, g);
      assert last != newest;
    } else if KindOf(last) == Some(kind) {
      NewestOrOlder(kind, files, newest, last);
    } else {
      OutsortsIs(kind, newest, last);
    }
  }

  lemma OutsortsShadows(kind: string, newest: Stamp, file: string)
    requires Outsorts(kind, newest, file)
    ensures KindOf(file).Some? && Shadows(kind, KindOf(file).value)
  {
  }

  lemma NewestParts(kind: string, files: seq<string>, newest: string)
    requires IsNewest(kind, files, newest)
    ensures newest in files && KindOf(newest) == Some(kind)
  {
  }

  lemma NewestOrOlder(kind: string, files: seq<string>, newest: string, f: string)
    requires IsNewest(kind, files, newest) && f in files && KindOf(f) == Some(kind) && !Less(f, newest)
    ensures f == newest
  {
    hide Parse, IsStamp, Less;
    OrderOfNames(kind, newest, f);
    LessTotal(f, newest);
  }

  /** So with a shadow that begins with a letter `_bench` is wrong. */
  lemma ShadowMisleads(files: seq<string>, short: string, rest: string, f: string)
    requires AllStamped(files) && Present(short, files)
    requires f in files && KindOf(f) == Some(short + "-" + rest) && rest != "" && 'a' <= rest[0] <= 'z'
    ensures Bench(short, files).Some? && !IsNewest(short, files, Bench(short, files).value)
  {
    hide Less, Matches, Sorted, Glob, AllStamped;
    var newest := NewestExists(short, files);
    var s, b := Parse(newest).value.stamp, Parse(f).value;
    StampValid(newest);
    RestIsKind(short, rest);
    IntruderWins(short, rest, s, b.stamp);
    IntruderOrder(short, rest, s, b.stamp);
    assert (short + "-" + rest)[|short| + 1..] == rest;
    assert Outsorts(short, s, f);
    BenchRightExactly(short, files, newest);
  }

  lemma RestIsKind(short: string, rest: string)
    requires IsKind(short + "-" + rest)
    ensures KindChars(rest)
  {
    forall i | 0 <= i < |rest|
      ensures KindChar(rest[i])
    {
      assert rest[i] == (short + "-" + rest)[|short| + 1 + i];
    }
  }

  lemma StampValid(f: string)
    requires Parse(f).Some?
    ensures IsStamp(Parse(f).value.stamp)
  {
  }

  // ----- the check ---------------------------------------------------------------------------------

  datatype Report = Unnamed(file: string) | Shadow(short: string, long: string)

  /** What has been reported, and the kinds met, once `seen` have been looked at. */
  ghost predicate Scanned(reports: seq<Report>, kinds: seq<string>, seen: seq<string>) {
    && (forall f :: Unnamed(f) in reports <==> f in seen && EndsWith(f, ".json") && Parse(f).None?)
    && (forall k :: k in kinds <==> Present(k, seen))
  }

  lemma ScanOne(reports: seq<Report>, kinds: seq<string>, seen: seq<string>, f: string, reports': seq<Report>,
      kinds': seq<string>)
    requires Scanned(reports, kinds, seen)
    requires reports' == if EndsWith(f, ".json") && Parse(f).None? then reports + [Unnamed(f)] else reports
    requires var met := EndsWith(f, ".json") && Parse(f).Some? && Parse(f).value.kind !in kinds;
             kinds' == if met then kinds + [Parse(f).value.kind] else kinds
    ensures Scanned(reports', kinds', seen + [f])
  {
    hide EndsWith, Parse;
    StampedIsJson(f);
    forall k
      ensures k in kinds' <==> Present(k, seen + [f])
    {
      PresentAppend(k, seen, f);
    }
  }

  lemma PresentAppend(k: string, seen: seq<string>, f: string)
    ensures Present(k, seen + [f]) <==> Present(k, seen) || KindOf(f) == Some(k)
  {
    hide Parse;
    forall g
      ensures g in seen + [f] <==> g in seen || g == f
    {
    }
  }

  lemma StampedIsJson(f: string)
    ensures Parse(f).Some? ==> EndsWith(f, ".json")
  {
    if Parse(f).Some? {
      var k := |f| - 22;
      assert f[k + 16..][1..] == f[|f| - 5..];
    }
  }

  lemma PresentSame(files: seq<string>, names: seq<string>)
    requires forall f :: f in names <==> f in files
    ensures forall k :: Present(k, names) <==> Present(k, files)
  {
  }

  /** The shadows reported: those of the kinds in `done`, and those of `short` over the kinds in `seen`. */
  ghost predicate Reported(reports: seq<Report>, before: seq<Report>, all: seq<string>, done: seq<string>,
      short: string, seen: seq<string>) {
    && (forall f :: Unnamed(f) in reports <==> Unnamed(f) in before)
    && (forall s, l :: Shadow(s, l) in reports <==>
          Shadows(s, l) && ((s in done && l in all) || (s == short && l in seen)))
  }

  lemma ReportOne(reports: seq<Report>, before: seq<Report>, all: seq<string>, done: seq<string>, short: string,
      seen: seq<string>, long: string)
    requires Reported(reports, before, all, done, short, seen)
    ensures var reports' := if Shadows(short, long) then reports + [Shadow(short, long)] else reports;
            Reported(reports', before, all, done, short, seen + [long])
  {
    hide Shadows;
  }

  lemma ReportedAll(reports: seq<Report>, before: seq<Report>, all: seq<string>, done: seq<string>, short: string,
      next: string)
    requires Reported(reports, before, all, done, short, all)
    ensures Reported(reports, before, all, done + [short], next, [])
  {
    hide Shadows;
  }

  lemma Rename(reports: seq<Report>, before: seq<Report>, all: seq<string>, done: seq<string>, short: string)
    requires Reported(reports, before, all, done, "", [])
    ensures Reported(reports, before, all, done, short, [])
  {
  }

  lemma NoneYet(reports: seq<Report>, all: seq<string>, short: string)
    requires forall s, l :: Shadow(s, l) !in reports
    ensures Reported(reports, reports, all, [], short, [])
  {
  }

  lemma ScanStart()
    ensures Scanned([], [], [])
  {
  }

  lemma ScanEnd(files: seq<string>, reports: seq<Report>, kinds: seq<string>)
    requires Scanned(reports, kinds, Sorted(files))
    ensures Scanned(reports, kinds, files)
  {
    hide Sorted, EndsWith, Parse;
    forall f
      ensures f in Sorted(files) <==> f in files
    {
      SortedMembers(files, f);
    }
    PresentSame(files, Sorted(files));
  }

  lemma Checked(files: seq<string>, kinds: seq<string>, reports: seq<Report>, before: seq<Report>)
    requires Scanned(before, kinds, files) && Reported(reports, before, Sorted(kinds), Sorted(kinds), "", [])
    ensures AllReported(files, reports)
  {
    hide Sorted, EndsWith, Parse, Shadows, Present;
    forall k
      ensures k in Sorted(kinds) <==> Present(k, files)
    {
      SortedMembers(kinds, k);
    }
  }

  /** Every unstamped artifact and every shadow is reported, and nothing else. */
  ghost predicate AllReported(files: seq<string>, reports: seq<Report>) {
    && (forall f :: Unnamed(f) in reports <==> f in files && EndsWith(f, ".json") && Parse(f).None?)
    && (forall s, l :: Shadow(s, l) in reports <==> Present(s, files) && Present(l, files) && Shadows(s, l))
  }

  /** A clean check: names stamped, globs exact, and `_bench` gives the newest artifact of every kind. */
  lemma CleanCheck(files: seq<string>, reports: seq<Report>)
    requires AllReported(files, reports)
    ensures reports == [] <==> AllStamped(files) && NoShadow(files)
    ensures reports == [] <==> AllStamped(files) && GlobsExact(files)
    ensures reports == [] ==> forall kind | Present(kind, files) :: BenchRight(kind, files)
  {
    hide EndsWith, Parse, Shadows, Present, Bench, IsNewest, GlobsExact;
    SomeReport(reports);
    if AllStamped(files) {
      NoShadowIsExact(files);
    }
    if GlobsExact(files) {
      forall kind | Present(kind, files)
        ensures Bench(kind, files).Some? && IsNewest(kind, files, Bench(kind, files).value)
      {
        BenchIsNewest(kind, files);
      }
    }
  }

  lemma SomeReport(reports: seq<Report>)
    ensures reports == [] <==> (forall f :: Unnamed(f) !in reports) && (forall s, l :: Shadow(s, l) !in reports)
  {
    if reports != [] {
      var r := reports[0];
      assert r in reports;
      assert match r case Unnamed(f) => Unnamed(f) in reports case Shadow(s, l) => Shadow(s, l) in reports;
    }
  }

  /** `check_bench_kinds_do_not_shadow`: nothing is reported exactly when every artifact is stamped and no
      kind shadows another, and then `_bench` gives the newest artifact of every kind there is. */
  method CheckBenchKinds(files: seq<string>) returns (reports: seq<Report>)
    ensures AllReported(files, reports)
    ensures reports == [] <==> AllStamped(files) && GlobsExact(files)
    ensures reports == [] ==> forall kind | Present(kind, files) :: BenchRight(kind, files)
  {
    hide *;
    reports := [];
    var kinds: seq<string> := [];
    var names := Sorted(files);
    ScanStart();
    for i := 0 to |names|
      invariant Scanned(reports, kinds, names[..i])
      invariant forall s, l :: Shadow(s, l) !in reports
    {
      var f := names[i];
      var reports', kinds' := reports, kinds;
      if EndsWith(f, ".json") {
        var m := Parse(f);
        if m.None? {
          reports' := reports + [Unnamed(f)];
        } else if m.value.kind !in kinds {
          kinds' := kinds + [m.value.kind];
        }
      }
      ScanOne(reports, kinds, names[..i], f, reports', kinds');
      assert names[..i + 1] == names[..i] + [f];
      reports, kinds := reports', kinds';
    }
    assert names[..|names|] == names;
    ScanEnd(files, reports, kinds);
    ghost var before := reports;
    var ordered := Sorted(kinds);
    NoneYet(reports, ordered, "");
    for i := 0 to |ordered|
      invariant Reported(reports, before, ordered, ordered[..i], "", [])
    {
      var short := ordered[i];
      Rename(reports, before, ordered, ordered[..i], short);
      for j := 0 to |ordered|
        invariant Reported(reports, before, ordered, ordered[..i], short, ordered[..j])
      {
        var long := ordered[j];
        ReportOne(reports, before, ordered, ordered[..i], short, ordered[..j], long);
        assert ordered[..j + 1] == ordered[..j] + [long];
        if Shadows(short, long) {
          reports := reports + [Shadow(short, long)];
        }
      }
      assert ordered[..|ordered|] == ordered;
      ReportedAll(reports, before, ordered, ordered[..i], short, "");
      assert ordered[..i + 1] == ordered[..i] + [short];
    }
    assert ordered[..|ordered|] == ordered;
    Checked(files, kinds, reports, before);
    CleanCheck(files, reports);
  }
}
