/** The `ar` container of a .deb: one writer and two readers.  Archives, names and
    data are strings of byte-sized characters; names are ASCII. */
module Ar {
  import opened Options
  import opened VersionOrder
  import opened Versions

  const MAGIC := "!<arch>\n"
  const END_OF_HEADER := "`\n"

  datatype Member = Member(name: string, data: string)

  datatype Error = NotAnArchive | CorruptHeader | BadSize | NameTooLong

  datatype Result<T> = Ok(value: T) | Err(error: Error)

  // ---- writing ------------------------------------------------------------------------------------

  /** `str.ljust` */
  function Padded(s: string, width: nat): (t: string)
    ensures |t| == if |s| < width then width else |s|
    ensures s <= t && forall k :: |s| <= k < |t| ==> t[k] == ' '
  {
    if |s| < width then s + seq(width - |s|, _ => ' ') else s
  }

  /** `str(n)` */
  function Decimal(n: nat): (s: string)
    ensures AllDigitsNonEmpty(s) && Value(s) == n
  {
    if n < 10 then assert [(('0' as int + n) as char)][..0] == ""; [('0' as int + n) as char]
    else
      var s := Decimal(n / 10) + [('0' as int + n % 10) as char];
      assert s[..|s| - 1] == Decimal(n / 10);
      s
  }

  lemma {:induction false} DecimalWidth(n: nat, k: nat)
    requires n < Pow10(k) && k > 0
    ensures |Decimal(n)| <= k
  {
    if n >= 10 {
      assert k > 1 by { assert Pow10(1) == 10 * Pow10(0); }
      DecimalWidth(n / 10, k - 1);
    }
  }

  function Header(m: Member): string {
    Padded(m.name, 16) + Padded("0", 12) + Padded("0", 6) + Padded("0", 6) + Padded("100644", 8)
    + Padded(Decimal(|m.data|), 10) + END_OF_HEADER
  }

  function Filler(n: nat): string { if n % 2 == 1 then "\n" else "" }

  function Image(m: Member): string { Header(m) + m.data + Filler(|m.data|) }

  function Body(ms: seq<Member>): string {
    if ms == [] then "" else Image(ms[0]) + Body(ms[1..])
  }

  lemma Regroup(a: string, b: string, c: string)
    ensures a + b + c == a + (b + c)
  {
  }

  lemma ImageParts(s: string, m: Member)
    ensures s + Image(m) == if |m.data| % 2 == 1 then s + Header(m) + m.data + "\n" else s + Header(m) + m.data
  {
    assert Image(m) == Header(m) + m.data + Filler(|m.data|);
    Regroup(s + Header(m), m.data, Filler(|m.data|));
    Regroup(s, Header(m), m.data + Filler(|m.data|));
    Regroup(Header(m), m.data, Filler(|m.data|));
  }

  lemma BodyHead(ms: seq<Member>, i: nat)
    requires 0 < i <= |ms|
    ensures Body(ms[..i]) == Image(ms[0]) + Body(ms[1..][..i - 1])
  {
    assert ms[..i][1..] == ms[1..][..i - 1];
  }

  lemma {:induction false} BodyStep(ms: seq<Member>, i: nat)
    requires i < |ms|
    ensures Body(ms[..i + 1]) == Body(ms[..i]) + Image(ms[i])
  {
    if i == 0 {
      assert Body(ms[..1]) == Image(ms[0]) + Body(ms[..1][1..]);
    } else {
      BodyStep(ms[1..], i - 1);
      BodyHead(ms, i + 1);
      BodyHead(ms, i);
      Regroup(Image(ms[0]), Body(ms[1..][..i - 1]), Image(ms[i]));
    }
  }

  predicate Fits(m: Member) { |m.name| <= 16 }

  /** `ar_write` */
  method Write(ms: seq<Member>) returns (r: Result<string>)
    ensures r == if forall m :: m in ms ==> Fits(m) then Ok(MAGIC + Body(ms)) else Err(NameTooLong)
  {
    for i := 0 to |ms|
      invariant forall m :: m in ms[..i] ==> Fits(m)
    {
      if |ms[i].name| > 16 {
        assert ms[i] in ms && !Fits(ms[i]);
        return Err(NameTooLong);
      }
      assert ms[..i + 1] == ms[..i] + [ms[i]];
    }
    assert ms[..|ms|] == ms;
    var out := MAGIC;
    for i := 0 to |ms|
      invariant out == MAGIC + Body(ms[..i])
    {
      BodyStep(ms, i);
      ImageParts(MAGIC + Body(ms[..i]), ms[i]);
      Regroup(MAGIC, Body(ms[..i]), Image(ms[i]));
      out := out + Header(ms[i]);
      out := out + ms[i].data;
      if |ms[i].data| % 2 == 1 {
        out := out + "\n";
      }
    }
    assert ms[..|ms|] == ms;
    return Ok(out);
  }

  // ---- reading --------------------------------------------------------------------------------------

  function Least(a: int, b: int): int { if a < b then a else b }

  /** How a reader takes a header: whether it checks the end of it, and its reading
      of the name and size fields. */
  datatype Reader = Reader(checked: bool, rename: string -> string, size: string -> Option<int>)

  datatype Step = Step(member: Member, next: nat)

  function Usable(size: Option<int>): Option<nat> {
    if size.Some? && size.value >= 0 then Some(size.value) else None
  }

  /** The member whose header is at `off`, and where the next header is. */
  function ReadOne(blob: string, off: nat, rd: Reader): (r: Result<Step>)
    requires off + 60 <= |blob|
    ensures r.Ok? ==> off + 60 <= r.value.next <= |blob|
  {
    var hdr := blob[off..off + 60];
    if rd.checked && hdr[58..60] != END_OF_HEADER then Err(CorruptHeader)
    else
      match Usable(rd.size(hdr[48..58]))
      case None => Err(BadSize)
      case Some(size) =>
        var start := off + 60;
        Ok(Step(Member(rd.rename(hdr[0..16]), blob[start..Least(start + size, |blob|)]),
                Least(start + size + size % 2, |blob|)))
  }

  /** Member by member from `off`. */
  function Scan(blob: string, off: nat, rd: Reader): Result<seq<Member>>
    requires off <= |blob|
    decreases |blob| - off
  {
    if off + 60 > |blob| then Ok([])
    else
      match ReadOne(blob, off, rd)
      case Err(e) => Err(e)
      case Ok(step) => Append([step.member], Scan(blob, step.next, rd))
  }

  function Append(ms: seq<Member>, more: Result<seq<Member>>): Result<seq<Member>> {
    match more
    case Ok(xs) => Ok(ms + xs)
    case Err(e) => Err(e)
  }

  /** One step of a scan moves one member over, or ends it. */
  lemma ScanStep(ms: seq<Member>, blob: string, off: nat, rd: Reader)
    requires off + 60 <= |blob|
    ensures Append(ms, Scan(blob, off, rd)) ==
            match ReadOne(blob, off, rd)
            case Err(e) => Err(e)
            case Ok(step) => Append(ms + [step.member], Scan(blob, step.next, rd))
  {
    match ReadOne(blob, off, rd)
    case Err(_) =>
    case Ok(step) =>
      var more := Scan(blob, step.next, rd);
      if more.Ok? {
        assert ms + ([step.member] + more.value) == ms + [step.member] + more.value;
      }
  }

  lemma AppendNone(ms: seq<Member>, more: Result<seq<Member>>)
    ensures Append([], more) == more && Append(ms, Ok([])) == Ok(ms)
  {
    assert ms + [] == ms;
    if more.Ok? {
      assert [] + more.value == more.value;
    }
  }

  /** `ar_read`'s name: trailing space and one slash dropped. */
  function OneSlashOff(field: string): string {
    var name := RStrip(field);
    if name != "" && name[|name| - 1] == '/' then name[..|name| - 1] else name
  }

  function SlashesOff(s: string): (t: string)
    ensures t <= s
  {
    if s != "" && s[|s| - 1] == '/' then SlashesOff(s[..|s| - 1]) else s
  }

  /** `ar_members`' name: space on both sides and every trailing slash dropped. */
  function AllSlashesOff(field: string): string { SlashesOff(Strip(field)) }

  function Entries(archive: string, rd: Reader): Result<seq<Member>> {
    if |archive| < 8 || archive[..8] != MAGIC then Err(NotAnArchive) else Scan(archive, 8, rd)
  }

  const DEB := Reader(true, OneSlashOff, PyInt)

  const INDEX := Reader(false, AllSlashesOff, PyInt)

  /** `ar_read`, with `DEB` */
  method Read(blob: string, rd: Reader) returns (r: Result<seq<Member>>)
    ensures r == Entries(blob, rd)
  {
    if |blob| < 8 || blob[..8] != MAGIC {
      return Err(NotAnArchive);
    }
    var members: seq<Member>, off := [], 8;
    AppendNone([], Scan(blob, 8, rd));
    while off + 60 <= |blob|
      invariant 8 <= off <= |blob|
      invariant Entries(blob, rd) == Append(members, Scan(blob, off, rd))
      decreases |blob| - off
    {
      ghost var one := ReadOne(blob, off, rd);
      ScanStep(members, blob, off, rd);
      var hdr := blob[off..off + 60];
      if rd.checked && hdr[58..60] != END_OF_HEADER {
        return Err(CorruptHeader);
      }
      var size := Usable(rd.size(hdr[48..58]));
      if size.None? {
        return Err(BadSize);
      }
      var start := off + 60;
      var m := Member(rd.rename(hdr[0..16]), blob[start..Least(start + size.value, |blob|)]);
      off := Least(start + size.value + size.value % 2, |blob|);
      assert one == Ok(Step(m, off));
      members := members + [m];
    }
    AppendNone(members, Ok([]));
    return Ok(members);
  }

  /** The last entry of each name, as a dictionary keeps it. */
  function Index(ms: seq<Member>): map<string, string> {
    if ms == [] then map[] else Index(ms[..|ms| - 1])[ms[|ms| - 1].name := ms[|ms| - 1].data]
  }

  lemma IndexMore(ms: seq<Member>, m: Member)
    ensures Index(ms + [m]) == Index(ms)[m.name := m.data]
  {
    assert (ms + [m])[..|ms|] == ms;
  }

  function Indexed(r: Result<seq<Member>>): Result<map<string, string>> {
    match r
    case Ok(ms) => Ok(Index(ms))
    case Err(e) => Err(e)
  }

  /** make-repo's `ar_members`, with `INDEX` */
  method ReadIndex(blob: string, rd: Reader) returns (r: Result<map<string, string>>)
    ensures r == Indexed(Entries(blob, rd))
  {
    if |blob| < 8 || blob[..8] != MAGIC {
      return Err(NotAnArchive);
    }
    var out: map<string, string>, off := map[], 8;
    ghost var members: seq<Member> := [];
    AppendNone([], Scan(blob, 8, rd));
    while off + 60 <= |blob|
      invariant 8 <= off <= |blob| && out == Index(members)
      invariant Entries(blob, rd) == Append(members, Scan(blob, off, rd))
      decreases |blob| - off
    {
      ghost var one := ReadOne(blob, off, rd);
      ScanStep(members, blob, off, rd);
      var hdr := blob[off..off + 60];
      if rd.checked && hdr[58..60] != END_OF_HEADER {
        return Err(CorruptHeader);
      }
      off := off + 60;
      var name := rd.rename(hdr[0..16]);
      var size := Usable(rd.size(hdr[48..58]));
      if size.None? {
        return Err(BadSize);
      }
      ghost var m := Member(name, blob[off..Least(off + size.value, |blob|)]);
      out := out[name := blob[off..Least(off + size.value, |blob|)]];
      off := Least(off + size.value + size.value % 2, |blob|);
      assert one == Ok(Step(m, off));
      IndexMore(members, m);
      members := members + [m];
    }
    AppendNone(members, Ok([]));
    return Ok(out);
  }

  // ---- the readers undo the writer ----------------------------------------------------------------------

  /** `int` of a padded decimal. */
  lemma PaddedInt(n: nat, width: nat)
    ensures PyInt(Padded(Decimal(n), width)) == Some(n)
  {
    var d := Decimal(n);
    var t := Padded(d, width);
    assert t[0] == d[0];
    assert LStrip(t) == t;
    RStripPadded(d, width);
    assert LStrip(d) == d;
    DigitsAreInt(d);
    assert Strip(t) == Strip(d);
  }

  lemma {:induction false} RStripSpaces(s: string, n: nat)
    ensures RStrip(s + seq(n, _ => ' ')) == RStrip(s)
  {
    var t := s + seq(n, _ => ' ');
    if n == 0 {
      assert t == s;
    } else {
      assert t[|t| - 1] == ' ';
      assert t[..|t| - 1] == s + seq(n - 1, _ => ' ');
      RStripSpaces(s, n - 1);
    }
  }

  lemma RStripPadded(s: string, width: nat)
    ensures RStrip(Padded(s, width)) == RStrip(s)
  {
    if |s| < width {
      RStripSpaces(s, width - |s|);
    }
  }

  predicate Small(m: Member) { |m.data| < Pow10(10) }

  lemma HeaderFields(m: Member)
    requires Fits(m) && Small(m)
    ensures |Header(m)| == 60 && Header(m)[0..16] == Padded(m.name, 16)
    ensures Header(m)[48..58] == Padded(Decimal(|m.data|), 10) && Header(m)[58..60] == END_OF_HEADER
  {
    DecimalWidth(|m.data|, 10);
    var a := Padded(m.name, 16);
    var b := Padded("0", 12) + Padded("0", 6) + Padded("0", 6) + Padded("100644", 8);
    var c := Padded(Decimal(|m.data|), 10);
    assert Header(m) == a + b + c + END_OF_HEADER;
    Fields(a, b, c, END_OF_HEADER);
  }

  /** The header is the padded name, time, owner and group 0, mode 100644, the padded size
      and the end mark, each in its place, behind a magic of eight characters. */
  lemma HeaderLayout(m: Member)
    requires Fits(m) && Small(m)
    ensures var h := Header(m);
            && |h| == 60 && h[..|m.name|] == m.name && (forall k :: |m.name| <= k < 16 ==> h[k] == ' ')
            && h[16..28] == "0           " && h[28..34] == "0     " && h[34..40] == "0     " && h[40..48] == "100644  "
            && h[48..48 + |Decimal(|m.data|)|] == Decimal(|m.data|)
            && (forall k :: 48 + |Decimal(|m.data|)| <= k < 58 ==> h[k] == ' ') && h[58..60] == "`\n"
    ensures MAGIC == "!<arch>\n"
  {
    DecimalWidth(|m.data|, 10);
    var a, c := Padded(m.name, 16), Padded(Decimal(|m.data|), 10);
    var t, u, w := Padded("0", 12), Padded("0", 6), Padded("100644", 8);
    assert t == "0           " && u == "0     " && w == "100644  ";
    assert Header(m) == a + t + u + u + w + c + END_OF_HEADER;
    SevenFields(a, t, u, w, c, END_OF_HEADER);
  }

  lemma SevenFields(a: string, t: string, u: string, w: string, c: string, e: string)
    requires |a| == 16 && |t| == 12 && |u| == 6 && |w| == 8 && |c| == 10 && |e| == 2
    ensures var h := a + t + u + u + w + c + e;
            && |h| == 60 && h[0..16] == a && h[16..28] == t && h[28..34] == u && h[34..40] == u && h[40..48] == w
            && h[48..58] == c && h[58..60] == e
  {
  }

  lemma Fields(a: string, b: string, c: string, d: string)
    requires |a| == 16 && |b| == 32 && |c| == 10 && |d| == 2
    ensures (a + b + c + d)[0..16] == a && (a + b + c + d)[48..58] == c && (a + b + c + d)[58..60] == d
  {
  }

  lemma Window(pre: string, h: string, d: string, f: string, post: string)
    ensures var all := pre + (h + d + f) + post;
            && all[|pre|..|pre| + |h|] == h && all[|pre| + |h|..|pre| + |h| + |d|] == d
            && |all| >= |pre| + |h| + |d| + |f|
  {
  }

  /** A member read at the place it was written. */
  lemma ReadWritten(pre: string, m: Member, post: string, rd: Reader)
    requires Fits(m) && Small(m) && rd.size(Padded(Decimal(|m.data|), 10)) == Some(|m.data|)
    ensures |Image(m)| >= 60
    ensures ReadOne(pre + Image(m) + post, |pre|, rd)
            == Ok(Step(Member(rd.rename(Padded(m.name, 16)), m.data), |pre| + |Image(m)|))
  {
    HeaderFields(m);
    Window(pre, Header(m), m.data, Filler(|m.data|), post);
  }

  function Renamed(ms: seq<Member>, rd: Reader): seq<Member> {
    seq(|ms|, i requires 0 <= i < |ms| => Member(rd.rename(Padded(ms[i].name, 16)), ms[i].data))
  }

  ghost predicate ReadsSizes(rd: Reader) {
    forall n: nat :: rd.size(Padded(Decimal(n), 10)) == Some(n)
  }

  lemma BothReadSizes()
    ensures ReadsSizes(DEB) && ReadsSizes(INDEX)
  {
    forall n: nat
      ensures PyInt(Padded(Decimal(n), 10)) == Some(n)
    {
      PaddedInt(n, 10);
    }
  }

  lemma RenamedHead(ms: seq<Member>, rd: Reader)
    requires ms != []
    ensures Renamed(ms, rd) == [Member(rd.rename(Padded(ms[0].name, 16)), ms[0].data)] + Renamed(ms[1..], rd)
  {
  }

  lemma ScanHead(pre: string, m: Member, post: string, rd: Reader, tail: seq<Member>)
    requires Fits(m) && Small(m) && ReadsSizes(rd)
    requires Scan(pre + Image(m) + post, |pre + Image(m)|, rd) == Ok(tail)
    ensures Scan(pre + Image(m) + post, |pre|, rd) == Ok([Member(rd.rename(Padded(m.name, 16)), m.data)] + tail)
  {
    ReadWritten(pre, m, post, rd);
    ScanOne(pre + Image(m) + post, |pre|,
            Step(Member(rd.rename(Padded(m.name, 16)), m.data), |pre + Image(m)|), rd);
  }

  lemma ScanOne(blob: string, off: nat, step: Step, rd: Reader)
    requires off + 60 <= |blob| && ReadOne(blob, off, rd) == Ok(step)
    ensures Scan(blob, off, rd) == Append([step.member], Scan(blob, step.next, rd))
  {
  }

  /** Every member comes back with its bytes, in order, under the name its padded
      field reads as. */
  lemma {:induction false} ScanWritten(pre: string, ms: seq<Member>, rd: Reader)
    requires ReadsSizes(rd)
    requires forall m :: m in ms ==> Fits(m) && Small(m)
    ensures Scan(pre + Body(ms), |pre|, rd) == Ok(Renamed(ms, rd))
    decreases |ms|
  {
    if ms == [] {
      assert pre + Body(ms) == pre;
      assert Renamed(ms, rd) == [];
    } else {
      var m, tail := ms[0], ms[1..];
      var next := pre + Image(m);
      assert m in ms && forall x :: x in tail ==> x in ms;
      assert pre + Body(ms) == next + Body(tail) by { Regroup(pre, Image(m), Body(tail)); }
      ScanWritten(next, tail, rd);
      ScanHead(pre, m, Body(tail), rd, Renamed(tail, rd));
      RenamedHead(ms, rd);
    }
  }

  lemma EntriesWritten(ms: seq<Member>, rd: Reader)
    requires ReadsSizes(rd)
    requires forall m :: m in ms ==> Fits(m) && Small(m)
    ensures Entries(MAGIC + Body(ms), rd) == Ok(Renamed(ms, rd))
  {
    assert (MAGIC + Body(ms))[..8] == MAGIC;
    ScanWritten(MAGIC, ms, rd);
  }

  /** No trailing whitespace and no trailing slash. */
  predicate Tidy(name: string) {
    name == "" || !(IsSpace(name[|name| - 1]) || name[|name| - 1] == '/')
  }

  lemma NameKept(name: string)
    ensures OneSlashOff(Padded(name, 16)) == name <==> Tidy(name)
  {
    RStripPadded(name, 16);
  }

  /** `ar_read` undoes `ar_write` exactly on the lists whose names are all tidy;
      on any other list some name comes back changed. */
  lemma RoundTrip(ms: seq<Member>)
    requires forall m :: m in ms ==> Fits(m) && Small(m)
    ensures Entries(MAGIC + Body(ms), DEB) == Ok(ms) <==> forall m :: m in ms ==> Tidy(m.name)
  {
    BothReadSizes();
    EntriesWritten(ms, DEB);
    var back := Renamed(ms, DEB);
    if forall m :: m in ms ==> Tidy(m.name) {
      forall i | 0 <= i < |ms|
        ensures back[i] == ms[i]
      {
        assert ms[i] in ms;
        NameKept(ms[i].name);
      }
      assert back == ms;
    } else {
      var m :| m in ms && !Tidy(m.name);
      var i :| 0 <= i < |ms| && ms[i] == m;
      NameKept(m.name);
      assert back[i] != ms[i];
    }
  }

  /** The index reader's names survive when they also start without whitespace. */
  predicate Plain(name: string) { Tidy(name) && (name == "" || !IsSpace(name[0])) }

  lemma PlainKept(name: string)
    requires |name| <= 16
    ensures AllSlashesOff(Padded(name, 16)) == name <==> Plain(name)
  {
    var t := Padded(name, 16);
    if Plain(name) {
      if name == "" {
        BlankStrip(t);
      } else {
        assert t[0] == name[0];
        assert LStrip(t) == t;
        RStripPadded(name, 16);
      }
    } else {
      if AllSlashesOff(t) == name {
        SlashesOffLast(Strip(t));
        LStripFirst(t);
        assert false;
      }
    }
  }

  lemma {:induction false} BlankStrip(t: string)
    requires forall k :: 0 <= k < |t| ==> t[k] == ' '
    ensures LStrip(t) == ""
  {
    if t != "" {
      BlankStrip(t[1..]);
    }
  }

  lemma {:induction false} SlashesOffLast(s: string)
    ensures var t := SlashesOff(s); t == "" || t[|t| - 1] != '/'
  {
    if s != "" && s[|s| - 1] == '/' && |s| > 1 {
      SlashesOffLast(s[..|s| - 1]);
    }
  }

  lemma LStripFirst(t: string)
    ensures LStrip(t) == "" || !IsSpace(LStrip(t)[0])
  {
  }

  ghost predicate DistinctNames(ms: seq<Member>) {
    forall i, j :: 0 <= i < j < |ms| ==> ms[i].name != ms[j].name
  }

  lemma {:induction false} IndexOfDistinct(ms: seq<Member>)
    requires DistinctNames(ms)
    ensures forall n :: n in Index(ms) <==> exists i :: 0 <= i < |ms| && ms[i].name == n
    ensures forall i :: 0 <= i < |ms| ==> ms[i].name in Index(ms) && Index(ms)[ms[i].name] == ms[i].data
  {
    if ms != [] {
      var front, last := ms[..|ms| - 1], ms[|ms| - 1];
      IndexOfDistinct(front);
      forall n | n in Index(ms)
        ensures exists i :: 0 <= i < |ms| && ms[i].name == n
      {
        if n == last.name {
          assert ms[|ms| - 1].name == n;
        } else {
          assert n in Index(front);
          var i :| 0 <= i < |front| && front[i].name == n;
          assert ms[i].name == n;
        }
      }
      forall i | 0 <= i < |ms|
        ensures ms[i].name in Index(ms) && Index(ms)[ms[i].name] == ms[i].data
      {
        if i < |front| {
          assert front[i] == ms[i];
        }
      }
    }
  }

  /** make-repo's reader recovers every member of what the writer wrote, and
      nothing else, when the names are distinct and plain. */
  lemma IndexRecovers(ms: seq<Member>)
    requires forall m :: m in ms ==> Fits(m) && Small(m) && Plain(m.name)
    requires DistinctNames(ms)
    ensures var r := Indexed(Entries(MAGIC + Body(ms), INDEX));
            && r.Ok?
            && (forall n :: n in r.value <==> exists i :: 0 <= i < |ms| && ms[i].name == n)
            && (forall i :: 0 <= i < |ms| ==> ms[i].name in r.value && r.value[ms[i].name] == ms[i].data)
  {
    BothReadSizes();
    EntriesWritten(ms, INDEX);
    var back := Renamed(ms, INDEX);
    forall i | 0 <= i < |ms|
      ensures back[i] == ms[i]
    {
      assert ms[i] in ms;
      PlainKept(ms[i].name);
    }
    assert back == ms;
    IndexOfDistinct(ms);
  }
}
