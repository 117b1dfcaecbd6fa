// Object names: the path segment taken apart by create_name, and the 8.3 name printed by get_fileinfo.
module Names {
  import opened Words
  import opened Lfn
  import opened DirTable
  import opened FileSystem

  // ----- characters -----

  const SPACE: Byte := 0x20
  const DOT: Byte := 0x2E
  const NDDE: Byte := 0x05

  predicate IsUpper(c: nat) { 0x41 <= c <= 0x5A }

  predicate IsLower(c: nat) { 0x61 <= c <= 0x7A }

  /** Conversions of the code page: OEM to Unicode, and Unicode to an upper-case OEM code; 0 when there is none. */
  datatype CodePage = CodePage(uni: Byte -> Word, oem: Word -> Byte)

  ghost predicate Sane(cp: CodePage)
  {
    forall c: Byte :: cp.uni(c) != 0xFFFF && if c < 0x80 then cp.uni(c) == c else cp.uni(c) == 0 || cp.uni(c) >= 0x80
  }

  /** Characters rejected in any name: " * : < > ? | and DEL. */
  predicate Illegal(w: nat)
  {
    w in {0x22, 0x2A, 0x3A, 0x3C, 0x3E, 0x3F, 0x7C, 0x7F}
  }

  /** Characters replaced in a short name: + , ; = [ ] */
  predicate ShortIllegal(w: nat)
  {
    w in {0x2B, 0x2C, 0x3B, 0x3D, 0x5B, 0x5D}
  }

  predicate IsSeparator(c: nat) { c == 0x2F || c == 0x5C }

  /** What ends a path segment: a control character, or a separator. */
  predicate IsEndOfSegment(c: nat) { c < 0x20 || IsSeparator(c) }

  // ----- status bits -----

  const NS_LOSS: Byte := 0x01
  const NS_LFN: Byte := 0x02
  const NS_LAST: Byte := 0x04
  const NS_BODY: Byte := 0x08
  const NS_EXT: Byte := 0x10

  /** The status byte, taken apart. */
  datatype Status = Status(loss: bool, lfn: bool, last: bool, body: bool, ext: bool)

  function Bits(s: Status): Byte
  {
    (if s.loss then NS_LOSS else 0) + (if s.lfn then NS_LFN else 0) + (if s.last then NS_LAST else 0) +
    (if s.body then NS_BODY else 0) + (if s.ext then NS_EXT else 0)
  }

  // ----- names of the 8.3 form -----

  /** A character that is stored as it is, but for its case. */
  predicate Legal(c: nat)
  {
    0x20 < c < 0x7F && c != DOT && !IsSeparator(c) && !Illegal(c) && !ShortIllegal(c)
  }

  predicate AllLegal(s: seq<nat>)
  {
    forall i :: 0 <= i < |s| ==> Legal(s[i])
  }

  predicate HasUpper(s: seq<nat>)
  {
    exists i :: 0 <= i < |s| && IsUpper(s[i])
  }

  predicate HasLower(s: seq<nat>)
  {
    exists i :: 0 <= i < |s| && IsLower(s[i])
  }

  /** Letter cases that occur: bit 0 for small, bit 1 for capital letters. */
  function CaseBits(s: seq<nat>): (b: nat)
    ensures b < 4
  {
    (if HasLower(s) then 1 else 0) + (if HasUpper(s) then 2 else 0)
  }

  /** A name of the 8.3 form whose two parts each use one letter case only. */
  predicate ShortName(body: seq<nat>, ext: seq<nat>)
  {
    && 0 < |body| <= 8 && |ext| <= 3 && AllLegal(body) && AllLegal(ext)
    && CaseBits(body) != 3 && CaseBits(ext) != 3
  }

  /** The name as it is written in a path. */
  function Full(body: seq<nat>, ext: seq<nat>): seq<nat>
  {
    if ext == [] then body else body + [DOT] + ext
  }

  function Up(c: nat): (u: nat)
    ensures Legal(c) ==> u < 0x80
  {
    if IsLower(c) then c - 0x20 else c
  }

  /** The eleven bytes and the status byte of a short name. */
  function ShortForm(body: seq<nat>, ext: seq<nat>, last: bool): seq<Byte>
    requires ShortName(body, ext)
  {
    seq(12, k requires 0 <= k < 12 =>
      if k < 8 then (if k < |body| then Up(body[k]) else SPACE)
      else if k < 11 then (if k - 8 < |ext| then Up(ext[k - 8]) else SPACE)
      else Bits(Status(false, false, last, CaseBits(body) == 1, CaseBits(ext) == 1)))
  }

  // ----- get_fileinfo: the 8.3 name of an entry -----

  /** A stored character as it is printed. */
  function Shown(c: Byte, small: bool): Byte
  {
    if small && IsUpper(c) then c + 0x20 else c
  }

  /** The characters from a up to b, or up to a space. */
  function Part(e: Entry, a: nat, b: nat, small: bool): seq<Byte>
    requires a <= b <= 32
    decreases b - a
  {
    if a == b || e[a] == SPACE then []
    else [Shown(if a < 8 && e[a] == NDDE then DDE else e[a], small)] + Part(e, a + 1, b, small)
  }

  /** The name printed for an entry, by its NT flags. */
  function Printed(e: Entry): seq<Byte>
  {
    Part(e, 0, 8, e[12] / 8 % 2 == 1) +
    (if e[8] != SPACE then [DOT] + Part(e, 8, 11, e[12] / 16 % 2 == 1) else [])
  }

  /** The name part of get_fileinfo, on the entry at offset o of the window. */
  method PrintName(dir: array<Byte>, o: nat) returns (p: seq<Byte>)
    requires o + 32 <= dir.Length
    ensures p == Printed(dir[o..o + 32])
  {
    var nt := dir[o + 12];
    p := PrintPart(dir, o, 0, 8, nt / 8 % 2 == 1);
    if dir[o + 8] != SPACE {
      var x := PrintPart(dir, o, 8, 11, nt / 16 % 2 == 1);
      p := p + [DOT] + x;
    }
    assert dir[o + 8] == dir[o..o + 32][8];
  }

  /** One part of the name: the loops over the body and over the extension. */
  method PrintPart(dir: array<Byte>, o: nat, a: nat, b: nat, small: bool) returns (p: seq<Byte>)
    requires o + 32 <= dir.Length && a <= b <= 32
    ensures p == Part(dir[o..o + 32], a, b, small)
  {
    hide Part, Shown;
    ghost var e: Entry := dir[o..o + 32];
    p := [];
    var i := a;
    while i < b
      invariant a <= i <= b && p + Part(e, i, b, small) == Part(e, a, b, small)
      decreases b - i
    {
      var c := dir[o + i];
      assert e[i] == c;
      PartNext(e, i, b, small);
      if c == SPACE { break; }
      if i < 8 && c == NDDE { c := DDE; }
      c := Shown(c, small);
      Append(p, c, Part(e, i + 1, b, small));
      p := p + [c];
      i := i + 1;
    }
    if i == b { PartEnd(e, b, small); }
  }

  lemma Append(p: seq<Byte>, c: Byte, t: seq<Byte>)
    ensures p + ([c] + t) == (p + [c]) + t
  {
  }

  lemma PartNext(e: Entry, i: nat, b: nat, small: bool)
    requires i < b <= 32
    ensures Part(e, i, b, small) ==
      if e[i] == SPACE then [] else [Shown(if i < 8 && e[i] == NDDE then DDE else e[i], small)] + Part(e, i + 1, b, small)
  {
  }

  lemma PartEnd(e: Entry, b: nat, small: bool)
    requires b <= 32
    ensures Part(e, b, b, small) == []
  {
  }

  /** A character of a part in one letter case, stored as a capital and printed by the case flag. */
  lemma CaseKept(s: seq<nat>, i: nat)
    requires i < |s| && AllLegal(s) && CaseBits(s) != 3
    ensures Up(s[i]) < 0x80 && Shown(Up(s[i]), CaseBits(s) == 1) == s[i] && Up(s[i]) != SPACE && Up(s[i]) != NDDE
    ensures Up(s[i]) != DDE
  {
    assert IsLower(s[i]) ==> HasLower(s);
    assert IsUpper(s[i]) ==> HasUpper(s);
  }

  /** A stored part, printed from character k on. */
  lemma {:induction false} PartShown(e: Entry, a: nat, b: nat, s: seq<nat>, k: nat)
    requires a + |s| <= b <= 32 && k <= |s| && AllLegal(s) && CaseBits(s) != 3
    requires forall j :: a <= j < a + |s| ==> e[j] == Up(s[j - a])
    requires a + |s| < b ==> e[a + |s|] == SPACE
    ensures Part(e, a + k, b, CaseBits(s) == 1) == s[k..]
    decreases |s| - k
  {
    hide CaseBits, AllLegal, Up, Shown;
    if k < |s| {
      CaseKept(s, k);
      PartShown(e, a, b, s, k + 1);
      assert e[a + k] == Up(s[k]);
      assert s[k..] == [s[k]] + s[k + 1..];
      assert a + (k + 1) == (a + k) + 1;
    } else {
      assert s[k..] == [];
    }
  }

  /** A short name, stored and printed, is the name as it was written. */
  lemma PrintedFull(body: seq<nat>, ext: seq<nat>, last: bool)
    requires ShortName(body, ext)
    ensures Printed(SfnEntry(ShortForm(body, ext, last))) == Full(body, ext)
  {
    hide CaseBits, Up, AllLegal, Part;
    var f := ShortForm(body, ext, last);
    var e := SfnEntry(f);
    StatusBits(last, CaseBits(body) == 1, CaseBits(ext) == 1);
    PartShown(e, 0, 8, body, 0);
    PartShown(e, 8, 11, ext, 0);
    if ext != [] { CaseKept(ext, 0); }
    assert e[8] == f[8] && e[12] == f[11] / 8 % 4 * 8;
  }

  /** The NT flags survive the mask. */
  lemma StatusBits(last: bool, body: bool, ext: bool)
    ensures var b := Bits(Status(false, false, last, body, ext));
      && (b / 8 % 4 * 8) / 8 % 2 == (if body then 1 else 0) && (b / 8 % 4 * 8) / 16 % 2 == (if ext then 1 else 0)
      && b % 4 == 0
  {
  }

  // ----- create_name -----

  /** A path string ends with a zero byte. */
  predicate Terminated(path: seq<Byte>)
  {
    |path| > 0 && path[|path| - 1] == 0
  }

  /** The segment of the path at p ends at end. */
  predicate SegmentAt(path: seq<Byte>, p: nat, end: nat)
  {
    p <= end < |path| && IsEndOfSegment(path[end]) && forall k :: p <= k < end ==> !IsEndOfSegment(path[k])
  }

  /** Past the separators. */
  function Start(path: seq<Byte>, k: nat): (p: nat)
    requires Terminated(path) && k < |path|
    ensures k <= p < |path| && !IsSeparator(path[p]) && forall j :: k <= j < p ==> IsSeparator(path[j])
    decreases |path| - k
  {
    if IsSeparator(path[k]) then Start(path, k + 1) else k
  }

  function End(path: seq<Byte>, k: nat): (e: nat)
    requires Terminated(path) && k < |path|
    ensures SegmentAt(path, k, e)
    decreases |path| - k
  {
    if IsEndOfSegment(path[k]) then k else End(path, k + 1)
  }

  /** The first segment of the path from k on. */
  function Segment(path: seq<Byte>, k: nat): seq<Byte>
    requires Terminated(path) && k < |path|
  {
    var p := Start(path, k);
    path[p..End(path, p)]
  }

  /** A path string that has one segment. */
  lemma OneSegment(path: seq<Byte>, k: nat, p: nat, e: nat)
    requires Terminated(path) && k <= p < |path| && !IsSeparator(path[p]) && SegmentAt(path, p, e)
    requires forall j :: k <= j < p ==> IsSeparator(path[j])
    ensures Start(path, k) == p && End(path, p) == e
  {
    OneEnd(path, p, e, End(path, p));
    OneStart(path, k, p, Start(path, k));
  }

  lemma OneEnd(path: seq<Byte>, p: nat, e: nat, f: nat)
    requires SegmentAt(path, p, e) && SegmentAt(path, p, f)
    ensures e == f
  {
  }

  lemma OneStart(path: seq<Byte>, k: nat, p: nat, q: nat)
    requires k <= p < |path| && !IsSeparator(path[p]) && forall j :: k <= j < p ==> IsSeparator(path[j])
    requires k <= q < |path| && !IsSeparator(path[q]) && forall j :: k <= j < q ==> IsSeparator(path[j])
    ensures p == q
  {
  }

  function Converted(cp: CodePage, s: seq<Byte>): seq<Word>
  {
    seq<Word>(|s|, k requires 0 <= k < |s| => cp.uni(s[k]))
  }

  /** Every character can be converted and may occur in a name. */
  predicate Accepted(s: seq<Word>)
  {
    forall k :: 0 <= k < |s| ==> s[k] != 0 && !Illegal(s[k])
  }

  /** A character stripped from the ends of a name. */
  predicate Strippable(w: Word) { w == SPACE || w == DOT }

  /** The name without the spaces and dots at its end. */
  function Stripped(s: seq<Word>): (r: seq<Word>)
    ensures r <= s && (r != [] ==> !Strippable(r[|r| - 1]))
    ensures forall k :: |r| <= k < |s| ==> Strippable(s[k])
  {
    if s == [] || !Strippable(s[|s| - 1]) then s else Stripped(s[..|s| - 1])
  }

  /** What the characters of a converted name are. */
  predicate Coded(s: seq<Word>)
  {
    forall k :: 0 <= k < |s| ==>
      0x20 <= s[k] != 0xFFFF && !Illegal(s[k]) && !IsSeparator(s[k])
  }

  lemma ConvertedCoded(cp: CodePage, s: seq<Byte>)
    requires Sane(cp) && Accepted(Converted(cp, s)) && forall k :: 0 <= k < |s| ==> !IsEndOfSegment(s[k])
    ensures Coded(Converted(cp, s)) && Coded(Stripped(Converted(cp, s)))
  {
    forall k | 0 <= k < |s| ensures 0x20 <= cp.uni(s[k]) != 0xFFFF && !IsSeparator(cp.uni(s[k])) {
      assert Converted(cp, s)[k] != 0;
    }
    var r := Stripped(Converted(cp, s));
    assert forall k :: 0 <= k < |r| ==> r[k] == Converted(cp, s)[k];
  }

  /** The long name: the converted characters of the segment, rejected when it is too long, not convertible or illegal. */
  method TakeSegment(path: seq<Byte>, start: nat, lfn: array<Word>, cp: CodePage)
    returns (res: FResult, di: nat, end: nat)
    requires Terminated(path) && start < |path| && Sane(cp) && 0 < lfn.Length
    modifies lfn
    ensures var s := Segment(path, start); var w := Converted(cp, s);
      && (res == FR_OK <==> |s| < lfn.Length && Accepted(w) && Stripped(w) != [])
      && (res == FR_OK ==> Named(lfn[..], Stripped(w)) && di == |Stripped(w)|)
    ensures res == FR_OK || res == FR_INVALID_NAME
    ensures res == FR_OK ==> end == End(path, Start(path, start))
  {
    hide Start, End, Stripped, Illegal;
    var p := start;
    while IsSeparator(path[p])
      invariant start <= p < |path| && forall k :: start <= k < p ==> IsSeparator(path[k])
      decreases |path| - p
    {
      p := p + 1;
    }
    ghost var e := End(path, p);
    OneSegment(path, start, p, e);
    ghost var w := Converted(cp, path[p..e]);
    di, end := 0, p;
    while true
      invariant p <= end <= e && di == end - p < lfn.Length
      invariant lfn[..di] == w[..di] && Accepted(w[..di])
      decreases e - end
    {
      var c := path[end];
      assert IsEndOfSegment(c) <==> end == e;
      if IsEndOfSegment(c) { break; }
      assert w[di] == cp.uni(c);
      if di >= lfn.Length - 1 { return FR_INVALID_NAME, di, end; }
      var x := cp.uni(c);
      if x == 0 { return FR_INVALID_NAME, di, end; }
      if Illegal(x) { return FR_INVALID_NAME, di, end; }
      lfn[di] := x;
      assert w[..di + 1] == w[..di] + [x];
      di := di + 1;
      end := end + 1;
    }
    assert w[..di] == w;
    di := TrimEnd(lfn, di, w);
    if di == 0 { return FR_INVALID_NAME, di, end; }
    ghost var r := Stripped(w);
    assert lfn[..di] == r;
    lfn[di] := 0;
    assert lfn[..di] == r;
    return FR_OK, di, end;
  }

  /** Spaces and dots at the end of the long name are dropped. */
  method TrimEnd(lfn: array<Word>, len: nat, ghost w: seq<Word>) returns (di: nat)
    requires len == |w| < lfn.Length && lfn[..len] == w
    ensures di == |Stripped(w)| && lfn[..di] == Stripped(w)
  {
    di := len;
    while di > 0
      invariant di <= len && lfn[..di] == w[..di] && Stripped(w[..di]) == Stripped(w)
    {
      StripOne(w[..di]);
      assert lfn[..di][di - 1] == w[di - 1] && w[..di][..di - 1] == w[..di - 1] && lfn[..di][..di - 1] == lfn[..di - 1];
      if !Strippable(lfn[di - 1]) { break; }
      di := di - 1;
    }
    StripOne(w[..di]);
  }

  lemma StripOne(s: seq<Word>)
    ensures Stripped(s) == if s == [] || !Strippable(s[|s| - 1]) then s else Stripped(s[..|s| - 1])
  {
  }

  /** What a character becomes in a short name: a byte, and whether that loses something. */
  datatype Mark = Mark(c: Byte, lossy: bool)

  function MarkOf(cp: CodePage, w: Word): Mark
  {
    var x: Byte := if w < 0x80 then w else cp.oem(w);
    if x == 0 || ShortIllegal(x) then Mark(0x5F, true) else Mark(if IsLower(x) then x - 0x20 else x, false)
  }

  /** One character of the short name: replaced, or folded to a capital with its case noted in b. */
  method ShortChar(w0: Word, b0: nat, cp: CodePage) returns (w: Byte, b: nat, lossy: bool, wide: bool)
    requires w0 != 0
    ensures w != 0 && b / 4 == b0 / 4 && MarkOf(cp, w0) == Mark(w, lossy)
    ensures wide <==> w0 >= 0x80
    ensures lossy ==> w == 0x5F
    ensures w0 < 0x80 ==> (lossy <==> ShortIllegal(w0))
    ensures w0 < 0x80 && !lossy ==> w == Up(w0) && b % 4 == WithCase(b0 % 4, w0)
  {
    var x: Word := w0;
    b, lossy, wide := b0, false, false;
    if x >= 0x80 {
      x := cp.oem(x);
      wide := true;
    }
    if x == 0 || ShortIllegal(x) {
      x := 0x5F;
      lossy := true;
    } else if IsUpper(x) {
      if b / 2 % 2 == 0 { b := b + 2; }
    } else if IsLower(x) {
      if b % 2 == 0 { b := b + 1; }
      x := x - 0x20;
    }
    w := x;
  }

  /** The case bits when another character is looked at. */
  function WithCase(b: nat, c: nat): nat
  {
    if IsUpper(c) then (if b / 2 % 2 == 0 then b + 2 else b)
    else if IsLower(c) then (if b % 2 == 0 then b + 1 else b)
    else b
  }

  lemma CaseBitsAppend(s: seq<nat>, c: nat)
    ensures CaseBits(s + [c]) == WithCase(CaseBits(s), c)
  {
    var t := s + [c];
    assert t[|s|] == c;
    assert forall i :: 0 <= i < |s| ==> t[i] == s[i];
    assert HasUpper(t) <==> HasUpper(s) || IsUpper(c) by {
      if i :| 0 <= i < |s| && IsUpper(s[i]) { assert IsUpper(t[i]); }
    }
    assert HasLower(t) <==> HasLower(s) || IsLower(c) by {
      if i :| 0 <= i < |s| && IsLower(s[i]) { assert IsLower(t[i]); }
    }
  }

  /** The state of the short-name loop: next character, next slot, end of the part, case bits, flags. */
  datatype Cursor = Cursor(si: nat, i: nat, ni: nat, b: nat, loss: bool, lfn: bool)

  /** What holds in every state: the slots filled hold no zero byte. */
  predicate Tracked(c: Cursor, fn: seq<Byte>, len: nat)
  {
    && |fn| == 12 && c.si <= len && (c.ni == 8 || c.ni == 11) && c.i <= c.ni && (c.ni == 11 ==> 8 <= c.i)
    && (c.loss ==> c.lfn) && c.b < 16 && (c.ni == 8 ==> c.b < 4)
    && forall k :: 0 <= k < 11 ==> fn[k] != 0
  }

  /** Where the extension of a name starts: behind its last dot, or 0 when it has none. */
  function AfterDot(name: seq<Word>): (d: nat)
    ensures d <= |name| && (d > 0 ==> name[d - 1] == DOT)
    ensures forall k :: d <= k < |name| ==> name[k] != DOT
  {
    if name == [] || name[|name| - 1] == DOT then |name| else AfterDot(name[..|name| - 1])
  }

  function Body(name: seq<Word>, di: nat): seq<Word>
    requires di <= |name|
  {
    if di == 0 then name else name[..di - 1]
  }

  function Ext(name: seq<Word>, di: nat): seq<Word>
    requires di <= |name|
  {
    if di == 0 then [] else name[di..]
  }

  /** The name is of the 8.3 form but for its letter cases. */
  predicate Fits(name: seq<Word>, di: nat)
    requires di <= |name|
  {
    0 < |Body(name, di)| <= 8 && |Ext(name, di)| <= 3 && AllLegal(Body(name, di)) && AllLegal(Ext(name, di))
  }

  /** The slots from a on hold the capitals of s, and spaces up to b. */
  predicate Filled(fn: seq<Byte>, a: nat, b: nat, s: seq<Word>)
    requires a <= b <= |fn|
  {
    a + |s| <= b && forall k :: a <= k < b ==> fn[k] == if k < a + |s| then Up(s[k - a]) else SPACE
  }

  /** The state while no long name is asked for: what was read is of the 8.3 form and stored. */
  predicate Taking(c: Cursor, fn: seq<Byte>, name: seq<Word>, di: nat)
    requires |fn| == 12 && c.si <= |name| && di <= |name|
  {
    if c.ni == 8 then
      && c.i == c.si <= 8 && (di == 0 || (c.si < di && 1 < di)) && AllLegal(name[..c.si]) && c.b == CaseBits(name[..c.si])
      && Filled(fn, 0, 8, name[..c.si]) && Filled(fn, 8, 11, [])
    else
      && 1 < di <= c.si && di - 1 <= 8 && c.i == 8 + (c.si - di) <= 11
      && AllLegal(name[..di - 1]) && AllLegal(name[di..c.si])
      && c.b == 4 * CaseBits(name[..di - 1]) + CaseBits(name[di..c.si])
      && Filled(fn, 0, 8, name[..di - 1]) && Filled(fn, 8, 11, name[di..c.si])
  }

  /** One more character of a part. */
  lemma PartGrows(name: seq<Word>, a: nat, b: nat)
    requires a <= b < |name|
    ensures name[a..b + 1] == name[a..b] + [name[b]]
    ensures AllLegal(name[a..b + 1]) <==> AllLegal(name[a..b]) && Legal(name[b])
    ensures CaseBits(name[a..b + 1]) == WithCase(CaseBits(name[a..b]), name[b])
  {
    hide CaseBits, WithCase, Legal;
    var s, t := name[a..b], name[a..b + 1];
    assert t == s + [name[b]];
    assert t[b - a] == name[b] && forall k :: 0 <= k < b - a ==> t[k] == s[k];
    CaseBitsAppend(s, name[b]);
  }

  lemma NoCase()
    ensures CaseBits([]) == 0 && AllLegal([])
  {
  }

  /** A character that is not of the 8.3 form, or has no room, keeps the name from fitting. */
  lemma Unfit(name: seq<Word>, di: nat, k: nat)
    requires di <= |name| && k < |name| && k + 1 != di && Fits(name, di)
    ensures Legal(name[k])
    ensures if di == 0 then k < 8 else if k < di then k < di - 1 <= 8 else k < di + 3
  {
    if di == 0 {
      assert Body(name, di)[k] == name[k];
    } else if k < di {
      assert Body(name, di)[k] == name[k];
    } else {
      assert Ext(name, di)[k - di] == name[k];
    }
  }

  lemma TakingFacts(c: Cursor, fn: seq<Byte>, name: seq<Word>, di: nat)
    requires |fn| == 12 && c.si <= |name| && di <= |name| && Taking(c, fn, name, di)
    ensures
      if c.ni == 8 then c.i == c.si <= 8 && (di == 0 || (c.si < di && 1 < di))
      else 1 < di <= c.si && c.i == 8 + (c.si - di) <= 11
  {
  }

  /** The body is complete, and the extension starts. */
  lemma EnterExt(c: Cursor, fn: seq<Byte>, name: seq<Word>, di: nat)
    requires |fn| == 12 && c.si < |name| && di <= |name| && Taking(c, fn, name, di) && c.ni == 8 && c.si + 1 == di
    ensures Taking(c.(si := di, i := 8, ni := 11, b := c.b * 4), fn, name, di)
  {
    hide CaseBits, AllLegal, Up;
    NoCase();
    assert name[di..di] == [];
  }

  /** One more legal character is stored. */
  lemma TakeChar(c: Cursor, c': Cursor, f: seq<Byte>, f': seq<Byte>, name: seq<Word>, di: nat)
    requires |f| == 12 && c.si < |name| && di <= |name| && Taking(c, f, name, di)
    requires c.i < c.ni && c.si + 1 != di && Legal(name[c.si]) && (if c.ni == 8 then c.b < 4 else c.ni == 11)
    requires c' == Cursor(c.si + 1, c.i + 1, c.ni, c'.b, false, false)
    requires c'.b / 4 == c.b / 4 && c'.b % 4 == WithCase(c.b % 4, name[c.si])
    requires Up(name[c.si]) < 256 && f' == f[c.i := Up(name[c.si])]
    ensures Taking(c', f', name, di)
  {
    hide CaseBits, Up, AllLegal, WithCase, Legal;
    if c.ni == 8 {
      PartGrows(name, 0, c.si);
      assert name[0..c.si] == name[..c.si] && name[0..c.si + 1] == name[..c.si + 1];
      FilledGrows(f, 0, 8, name[..c.si], name[c.si]);
    } else {
      PartGrows(name, di, c.si);
      FilledGrows(f, 8, 11, name[di..c.si], name[c.si]);
    }
  }

  lemma FilledGrows(f: seq<Byte>, a: nat, b: nat, s: seq<Word>, w: Word)
    requires a <= b <= |f| && Filled(f, a, b, s) && a + |s| < b && Up(w) < 256
    ensures Filled(f[a + |s| := Up(w)], a, b, s + [w])
  {
    hide Up;
  }

  datatype Turn = Done | Again

  /** What is left to be done for a short name: the state of the loop without the letter cases, and the eleven bytes. */
  datatype Form = Form(sfn: seq<Byte>, loss: bool)

  /** Eleven spaces. */
  function Unfilled(loss: bool): (r: Form)
    ensures |r.sfn| == 11 && r.loss == loss && forall i :: 0 <= i < 11 ==> r.sfn[i] == SPACE
  {
    Form(seq(11, i => SPACE), loss)
  }

  /** The loop from character si on, with slot i of the part that ends at ni. */
  function FormFrom(cp: CodePage, name: seq<Word>, di: nat, si: nat, i: nat, ni: nat, f: Form): (r: Form)
    requires di <= |name| && i <= ni && (ni == 8 || ni == 11) && |f.sfn| == 11
    ensures |r.sfn| == 11
    decreases |name| - si
  {
    if si >= |name| then f
    else if name[si] == SPACE || (name[si] == DOT && si + 1 != di) then
      FormFrom(cp, name, di, si + 1, i, ni, f.(loss := true))
    else if i >= ni || si + 1 == di then
      if ni == 11 then f.(loss := true)
      else if si + 1 > di then f.(loss := true)
      else FormFrom(cp, name, di, di, 8, 11, if si + 1 == di then f else f.(loss := true))
    else
      var m := MarkOf(cp, name[si]);
      FormFrom(cp, name, di, si + 1, i + 1, ni, Form(f.sfn[i := m.c], f.loss || m.lossy))
  }

  /** Number of spaces and dots at the start. */
  function Leading(name: seq<Word>): (n: nat)
    ensures n <= |name| && (forall k :: 0 <= k < n ==> Strippable(name[k])) && (n < |name| ==> !Strippable(name[n]))
  {
    if name == [] || !Strippable(name[0]) then 0 else 1 + Leading(name[1..])
  }

  /** The eleven bytes create_name makes of a long name, and whether they lose something. */
  function FormOf(cp: CodePage, name: seq<Word>): (r: Form)
    ensures |r.sfn| == 11
  {
    var n := Leading(name);
    var f := FormFrom(cp, name, AfterDot(name), n, 0, 8, Unfilled(n > 0));
    if f.sfn[0] == DDE then f.(sfn := f.sfn[0 := NDDE]) else f
  }

  /** The rest of the loop in the state c. */
  function Rest(cp: CodePage, name: seq<Word>, di: nat, c: Cursor, fn: seq<Byte>): Form
    requires di <= |name| && Tracked(c, fn, |name|)
  {
    FormFrom(cp, name, di, c.si, c.i, c.ni, Form(fn[..11], c.loss))
  }

  /** One round of the loop that makes the short name. */
  method ShortStep(lfn: array<Word>, ghost name: seq<Word>, di: nat, c: Cursor, fn: array<Byte>, cp: CodePage)
    returns (t: Turn, c': Cursor)
    requires Named(lfn[..], name) && fn.Length == 12 && di <= |name| && Coded(name) && (di > 0 ==> name[di - 1] == DOT)
    requires Tracked(c, fn[..], |name|)
    requires !c.lfn ==> Taking(c, fn[..], name, di)
    requires Fits(name, di) ==> !c.lfn
    modifies fn
    ensures fn[11] == old(fn[11]) && Tracked(c', fn[..], |name|)
    ensures !c'.lfn ==> Taking(c', fn[..], name, di)
    ensures Fits(name, di) ==> !c'.lfn
    ensures t.Done? && !c'.lfn ==> c'.si == |name|
    ensures t.Again? ==> c'.si > c.si
    ensures Rest(cp, name, di, c, old(fn[..])) ==
      if t.Again? then Rest(cp, name, di, c', fn[..]) else Form(fn[..11], c'.loss)
  {
    hide CaseBits, Up, AllLegal, WithCase, Fits, Legal, Illegal, ShortIllegal, Taking;
    NamedAt(lfn[..], name, c.si);
    var w := lfn[c.si];
    if w == 0 { return Done, c; }
    LegalIs(w);
    c' := c.(si := c.si + 1);
    if c'.si != di && Fits(name, di) { Unfit(name, di, c.si); }
    if !c.lfn { TakingFacts(c, fn[..], name, di); }
    if w == SPACE || (w == DOT && c'.si != di) {
      return Again, c'.(loss := true, lfn := true);
    }
    if c.i >= c.ni || c'.si == di {
      if c.ni == 11 { return Done, c'.(loss := true, lfn := true); }
      if c'.si != di { c' := c'.(loss := true, lfn := true); }
      if c'.si > di { return Done, c'; }
      if !c'.lfn { EnterExt(c, fn[..], name, di); }
      return Again, c'.(si := di, i := 8, ni := 11, b := c'.b * 4);
    }
    var x, b, lossy, wide := ShortChar(w, c.b, cp);
    ghost var f: seq<Byte> := fn[..];
    fn[c.i] := x;
    c' := Cursor(c'.si, c.i + 1, c.ni, b, c.loss || lossy, c.lfn || lossy || wide);
    if !c'.lfn { TakeChar(c, c', f, fn[..], name, di); }
    return Again, c';
  }

  /** The name without a mark that it is deleted: a first character 0xE5 is stored as 0x05. */
  predicate Stored(fn: seq<Byte>)
  {
    |fn| == 12 && fn[0] != DDE && forall k :: 0 <= k < 11 ==> fn[k] != 0
  }

  /** The invariant of the loop that makes the short name. */
  ghost predicate Forming(c: Cursor, fn: seq<Byte>, name: seq<Word>, di: nat)
    requires di <= |name|
  {
    Tracked(c, fn, |name|) && (!c.lfn ==> Taking(c, fn, name, di)) && (Fits(name, di) ==> !c.lfn)
  }

  /** Blank the short name, skip spaces and dots at the start and find the extension. */
  method Begin(lfn: array<Word>, ghost name: seq<Word>, len: nat, fn: array<Byte>) returns (c: Cursor, di: nat)
    requires Named(lfn[..], name) && fn.Length == 12 && len == |name| > 0 && !Strippable(name[|name| - 1])
    modifies fn
    ensures di == AfterDot(name)
    ensures Forming(c, fn[..], name, di)
    ensures c.si == Leading(name) && c.i == 0 && c.ni == 8 && c.loss == (c.si > 0) && fn[..11] == Unfilled(false).sfn
  {
    hide CaseBits, Up, AllLegal, Fits;
    forall i | 0 <= i < 11 { fn[i] := SPACE; }
    var si := 0;
    NamedAt(lfn[..], name, 0);
    while Strippable(lfn[si])
      invariant si < len && lfn[si] == name[si] && forall k :: 0 <= k < si ==> Strippable(name[k])
      invariant forall k :: 0 <= k < 11 ==> fn[k] == SPACE
      decreases len - si
    {
      NamedAt(lfn[..], name, si + 1);
      si := si + 1;
    }
    di := FindDot(lfn, name, len);
    NoCase();
    Headed(name, di, si > 0);
    c := Cursor(si, 0, 8, 0, si > 0, si > 0);
    assert name[..0] == [];
  }

  /** A short name and its status byte, as they come out for a long name. */
  ghost predicate Formed(cp: CodePage, name: seq<Word>, last: bool, s: Status, fn: seq<Byte>)
  {
    && Stored(fn) && FormOf(cp, name) == Form(fn[..11], s.loss) && fn[11] == Bits(s) && s.last == last && (s.loss ==>
      s.lfn)
    && (!s.lfn <==> ShortName(Body(name, AfterDot(name)), Ext(name, AfterDot(name))))
    && (!s.lfn ==> fn == ShortForm(Body(name, AfterDot(name)), Ext(name, AfterDot(name)), last))
  }

  /** The short name and its status, made from the long name in the buffer. */
  method MakeShort(lfn: array<Word>, ghost name: seq<Word>, len: nat, last: bool, fn: array<Byte>, cp: CodePage)
    returns (s: Status)
    requires Named(lfn[..], name) && fn.Length == 12 && Coded(name) && len == |name| > 0 && !Strippable(name[|name| - 1])
    modifies fn
    ensures Formed(cp, name, last, s, fn[..])
  {
    hide CaseBits, Up, AllLegal, Fits, ShortName, Illegal, ShortForm, Legal, Taking, Filled, Formed, Strippable, Bits,
      Coded;
    var c, di := Begin(lfn, name, len, fn);
    ghost var whole := FormFrom(cp, name, di, c.si, 0, 8, Unfilled(c.si > 0));
    while true
      invariant Forming(c, fn[..], name, di) && Rest(cp, name, di, c, fn[..]) == whole
      decreases len - c.si
    {
      var t, c' := ShortStep(lfn, name, di, c, fn, cp);
      c := c';
      if t.Done? { break; }
    }
    ghost var f := fn[..];
    assert whole == Form(f[..11], c.loss);
    if !c.lfn { Taken(c, fn[..], name, di); }
    if fn[0] == DDE { fn[0] := NDDE; }
    var b := if c.ni == 8 then c.b * 4 else c.b;
    var wide := c.lfn || b / 4 == 3 || b % 4 == 3;
    s := Status(c.loss, wide, last, !wide && b / 4 == 1, !wide && b % 4 == 1);
    fn[11] := Bits(s);
    Finished(cp, c, name, di, b, last, s, f, fn[..]);
  }

  /** What the last steps make of a name taken in. */
  lemma Finished(cp: CodePage, c: Cursor, name: seq<Word>, di: nat, b: nat, last: bool, s: Status, f: seq<Byte>,
      fn: seq<Byte>)
    requires di == AfterDot(name) && Tracked(c, f, |name|) && (Fits(name, di) ==> !c.lfn)
    requires !c.lfn ==> Fits(name, di) && Filled(f, 0, 8, Body(name, di)) && Filled(f, 8, 11, Ext(name, di))
    requires !c.lfn ==> b == 4 * CaseBits(Body(name, di)) + CaseBits(Ext(name, di))
    requires var wide := c.lfn || b / 4 == 3 || b % 4 == 3;
      s == Status(c.loss, wide, last, !wide && b / 4 == 1, !wide && b % 4 == 1)
    requires fn == f[0 := if f[0] == DDE then NDDE else f[0]][11 := Bits(s)]
    requires Form(f[..11], c.loss) ==
      FormFrom(cp, name, di, Leading(name), 0, 8, Unfilled(Leading(name) > 0))
    ensures Formed(cp, name, last, s, fn)
  {
    hide CaseBits, Up, Fits, ShortName, Filled, ShortForm, AllLegal, AfterDot, Body, Ext, Bits;
    FitsShort(name, di);
    assert fn[..11] == if f[0] == DDE then f[..11][0 := NDDE] else f[..11];
    if !s.lfn {
      FirstKept(f, Body(name, di));
      FormIs(Body(name, di), Ext(name, di), last, f, fn);
    }
  }

  /** A legal first character is not the mark of a deleted entry. */
  lemma FirstKept(f: seq<Byte>, body: seq<Word>)
    requires |f| == 12 && Filled(f, 0, 8, body) && AllLegal(body) && 0 < |body|
    ensures f[0] != DDE
  {
  }

  /** The last dot of the name. */
  method FindDot(lfn: array<Word>, ghost name: seq<Word>, len: nat) returns (di: nat)
    requires Named(lfn[..], name) && len == |name|
    ensures di == AfterDot(name)
  {
    di := len;
    while di > 0
      invariant di <= len && AfterDot(name[..di]) == AfterDot(name)
    {
      NamedAt(lfn[..], name, di - 1);
      assert name[..di][..di - 1] == name[..di - 1];
      if lfn[di - 1] == DOT { break; }
      di := di - 1;
    }
  }

  /** A name that starts with a space or a dot is not of the 8.3 form. */
  lemma Headed(name: seq<Word>, di: nat, stripped: bool)
    requires 0 < |name| && di == AfterDot(name) && (stripped <==> Strippable(name[0])) && !Strippable(name[|name| - 1])
    ensures Fits(name, di) ==> !stripped
    ensures !stripped ==> di != 1
    ensures di < |name|
  {
    if Fits(name, di) {
      if di == 0 { assert Body(name, di)[0] == name[0]; } else { assert Body(name, di)[0] == name[0]; }
    }
  }

  /** A name taken in to its end is of the 8.3 form, and stored as it is. */
  lemma Taken(c: Cursor, fn: seq<Byte>, name: seq<Word>, di: nat)
    requires |fn| == 12 && 0 < |name| == c.si && di <= |name| && Taking(c, fn, name, di)
    ensures Fits(name, di)
    ensures (if c.ni == 8 then c.b * 4 else c.b) == 4 * CaseBits(Body(name, di)) + CaseBits(Ext(name, di))
    ensures Filled(fn, 0, 8, Body(name, di)) && Filled(fn, 8, 11, Ext(name, di))
  {
    hide CaseBits, Up, Legal;
    NoCase();
    if c.ni == 8 {
      assert name[..c.si] == name;
    } else {
      assert name[di..c.si] == name[di..];
    }
  }

  lemma FitsShort(name: seq<Word>, di: nat)
    requires di <= |name|
    ensures Fits(name, di) && CaseBits(Body(name, di)) != 3 && CaseBits(Ext(name, di)) != 3
      <==> ShortName(Body(name, di), Ext(name, di))
    ensures Fits(name, di) ==> AllLegal(Body(name, di)) && 0 < |Body(name, di)|
  {
  }

  lemma FormIs(body: seq<Word>, ext: seq<Word>, last: bool, f: seq<Byte>, fn: seq<Byte>)
    requires |f| == |fn| == 12 && ShortName(body, ext)
    requires Filled(f, 0, 8, body) && Filled(f, 8, 11, ext) && forall k :: 0 <= k < 11 ==> fn[k] == f[k]
    requires fn[11] == Bits(Status(false, false, last, CaseBits(body) == 1, CaseBits(ext) == 1))
    ensures fn == ShortForm(body, ext, last)
  {
    hide CaseBits, Up, Bits;
    var g := ShortForm(body, ext, last);
    assert forall k :: 0 <= k < 12 ==> fn[k] == g[k];
  }

  lemma LegalIs(w: nat)
    ensures Legal(w) ==> w != SPACE && w != DOT && w < 0x80 && !ShortIllegal(w)
    ensures 0x20 <= w < 0x80 && !IsSeparator(w) && !Illegal(w) && !ShortIllegal(w) && w !in {0x7F, SPACE, DOT} ==> Legal(w)
    ensures !Illegal(w) ==> w != 0x7F
  {
  }

  // ----- the operation, and what it means -----

  /** The name is of the 8.3 form, with one letter case in each part. */
  ghost predicate IsShort(name: seq<Word>)
  {
    exists body: seq<Word>, ext: seq<Word> :: ShortName(body, ext) && name == Full(body, ext)
  }

  /** The two parts of a short name are found at its last dot. */
  lemma PartsOf(body: seq<Word>, ext: seq<Word>)
    requires ShortName(body, ext)
    ensures var name := Full(body, ext); Body(name, AfterDot(name)) == body && Ext(name, AfterDot(name)) == ext
  {
    hide AfterDot;
    var name := Full(body, ext);
    assert forall k :: 0 <= k < |body| ==> name[k] == body[k] && body[k] != DOT;
    assert forall k :: |body| < k < |name| ==> name[k] == ext[k - |body| - 1] && name[k] != DOT;
    var d := AfterDot(name);
    if ext != [] {
      assert name[|body|] == DOT;
      assert d == |body| + 1;
    } else {
      assert d == 0;
    }
  }

  lemma SplitAt(name: seq<Word>, di: nat)
    requires 0 < di < |name| && name[di - 1] == DOT
    ensures name == name[..di - 1] + [DOT] + name[di..] && name[di..] != []
  {
  }

  lemma CutFull(name: seq<Word>)
    requires name != [] && !Strippable(name[|name| - 1])
    ensures Full(Body(name, AfterDot(name)), Ext(name, AfterDot(name))) == name
  {
    hide AfterDot;
    var di := AfterDot(name);
    assert name[|name| - 1] != DOT && di < |name|;
    if di > 0 { SplitAt(name, di); }
  }

  /** Cut at its last dot, a name is of the 8.3 form exactly when it can be cut so at all. */
  lemma ShortIff(name: seq<Word>)
    requires name != [] && !Strippable(name[|name| - 1])
    ensures IsShort(name) <==> ShortName(Body(name, AfterDot(name)), Ext(name, AfterDot(name)))
    ensures IsShort(name) ==> Full(Body(name, AfterDot(name)), Ext(name, AfterDot(name))) == name
  {
    hide ShortName, Full, Body, Ext, AfterDot;
    CutFull(name);
    if IsShort(name) {
      var body: seq<Word>, ext: seq<Word> :| ShortName(body, ext) && name == Full(body, ext);
      PartsOf(body, ext);
    }
  }

  /**
   * create_name: the segment becomes a long name, a short name and a status byte. A long-name entry is asked
   * for exactly when the name is not of the 8.3 form; if it is, printing the entry gives the name back.
   */
  method CreateName(path: seq<Byte>, start: nat, lfn: array<Word>, fn: array<Byte>, cp: CodePage)
    returns (res: FResult, next: nat, ghost name: seq<Word>)
    requires Terminated(path) && start < |path| && Sane(cp) && 0 < lfn.Length <= 256 && fn.Length == 12
    modifies lfn, fn
    ensures var s := Segment(path, start);
      res == FR_OK <==> |s| < lfn.Length && Accepted(Converted(cp, s)) && Stripped(Converted(cp, s)) != []
    ensures res == FR_OK || res == FR_INVALID_NAME
    ensures res == FR_OK ==> next == End(path, Start(path, start)) + 1
    ensures res == FR_OK ==> name == Stripped(Converted(cp, Segment(path, start)))
    ensures res == FR_OK ==> IsName(name) && Named(lfn[..], name) && Stored(fn[..])
    ensures res == FR_OK ==> (fn[11] % 2 == 1 ==> fn[11] / 2 % 2 == 1) && (fn[11] / 4 % 2 == 1 <==> path[next - 1] < 0x20)
    ensures res == FR_OK ==> (fn[11] / 2 % 2 == 0 <==> IsShort(name))
    ensures res == FR_OK ==> FormOf(cp, name) == Form(fn[..11], fn[11] % 2 == 1)
    ensures res == FR_OK && IsShort(name) ==> Printed(SfnEntry(fn[..])) == name
  {
    hide Start, End, Stripped, Illegal, Printed, SfnEntry, ShortName, ShortForm, Converted, Accepted, AfterDot, Body,
      Ext, Full, IsShort, Bits, IsSeparator;
    next, name := 0, [];
    var len, end;
    res, len, end := TakeSegment(path, start, lfn, cp);
    if res != FR_OK { return; }
    var last := path[end] < 0x20;
    next := end + 1;
    name := Stripped(Converted(cp, Segment(path, start)));
    ConvertedCoded(cp, Segment(path, start));
    assert lfn[..][..len] == name;
    var s := MakeShort(lfn, name, len, last, fn, cp);
    StatusFields(s);
    ShortIff(name);
    if !s.lfn { PrintedFull(Body(name, AfterDot(name)), Ext(name, AfterDot(name)), last); }
  }

  lemma StatusFields(s: Status)
    ensures (Bits(s) % 2 == 1 <==> s.loss) && (Bits(s) / 2 % 2 == 1 <==> s.lfn) && (Bits(s) / 4 % 2 == 1 <==> s.last)
  {
  }

  /** A segment that is itself of the 8.3 form is the name that is created from it. */
  lemma ShortSegment(cp: CodePage, s: seq<Byte>, body: seq<Word>, ext: seq<Word>)
    requires Sane(cp) && ShortName(body, ext) && s == Full(body, ext)
    ensures Accepted(Converted(cp, s)) && Stripped(Converted(cp, s)) == s && IsShort(s)
  {
    forall k | 0 <= k < |s| ensures (Legal(s[k]) || (k < |s| - 1 && s[k] == DOT)) && Converted(cp, s)[k] == s[k] {
      assert s[k] == Full(body, ext)[k];
      assert k < |body| ==> Legal(body[k]);
      assert k > |body| ==> Legal(ext[k - |body| - 1]);
    }
    assert Converted(cp, s) == s;
    StripOne(s);
  }

  // ----- the short form of any name -----

  /** The characters from a up to b without spaces and dots. */
  function Solid(name: seq<Word>, a: nat, b: nat): (r: seq<Word>)
    requires a <= b <= |name|
    ensures |r| <= b - a
    decreases b - a
  {
    if a == b then []
    else if name[a] == 0x20 || name[a] == 0x2E then Solid(name, a + 1, b)
    else [name[a]] + Solid(name, a + 1, b)
  }

  /** The first n of them as bytes of a short name, padded with spaces. */
  function Field(cp: CodePage, s: seq<Word>, n: nat): (r: seq<Byte>)
    ensures |r| == n
  {
    seq(n, k requires 0 <= k < n => if k < |s| then MarkOf(cp, s[k]).c else 0x20)
  }

  /** The part from a to b in a field of n bytes. */
  function FieldOf(cp: CodePage, name: seq<Word>, a: nat, b: nat, n: nat): (r: seq<Byte>)
    requires a <= b <= |name|
    ensures |r| == n
  {
    Field(cp, Solid(name, a, b), n)
  }

  /** Something of the part from a to b is lost in a field of n bytes: left out, cut off or replaced. */
  ghost predicate Loses(cp: CodePage, name: seq<Word>, a: nat, b: nat, n: nat)
    requires a <= b <= |name|
  {
    var s := Solid(name, a, b);
    |s| < b - a || |s| > n || exists k :: 0 <= k < |s| && k < n && MarkOf(cp, s[k]).lossy
  }

  lemma FieldFront(cp: CodePage, w: Word, s: seq<Word>, n: nat, front: seq<Byte>)
    requires n > 0
    ensures front + Field(cp, [w] + s, n) == front + [MarkOf(cp, w).c] + Field(cp, s, n - 1)
  {
    hide MarkOf;
    var x, y := Field(cp, [w] + s, n), [MarkOf(cp, w).c] + Field(cp, s, n - 1);
    assert forall k :: 0 <= k < n ==> x[k] == y[k];
  }

  lemma LosesFront(cp: CodePage, name: seq<Word>, a: nat, b: nat, n: nat)
    requires a < b <= |name|
    ensures name[a] == 0x20 || name[a] == 0x2E ==> Loses(cp, name, a, b, n)
    ensures name[a] != 0x20 && name[a] != 0x2E && n == 0 ==> Loses(cp, name, a, b, n)
    ensures name[a] != 0x20 && name[a] != 0x2E && n > 0 ==>
      (Loses(cp, name, a, b, n) <==> MarkOf(cp, name[a]).lossy || Loses(cp, name, a + 1, b, n - 1))
  {
    hide MarkOf;
    var s, rest := Solid(name, a, b), Solid(name, a + 1, b);
    if name[a] != 0x20 && name[a] != 0x2E && n > 0 {
      assert s == [name[a]] + rest;
      assert forall k :: 0 <= k < |rest| ==> s[k + 1] == rest[k];
      assert |s| < b - a <==> |rest| < b - (a + 1);
      assert |s| > n <==> |rest| > n - 1;
      if j :| 0 <= j < |rest| && j < n - 1 && MarkOf(cp, rest[j]).lossy {
        assert 0 <= j + 1 < |s| && j + 1 < n && MarkOf(cp, s[j + 1]).lossy;
      }
      if k :| 0 < k < |s| && k < n && MarkOf(cp, s[k]).lossy {
        assert 0 <= k - 1 < |rest| && k - 1 < n - 1 && MarkOf(cp, rest[k - 1]).lossy;
      }
      if MarkOf(cp, name[a]).lossy { assert 0 <= 0 < |s| && 0 < n && MarkOf(cp, s[0]).lossy; }
    }
  }

  /** The loop in the last part of the name: the extension, or the body of a name without one. */
  lemma {:induction false} LastPart(cp: CodePage, name: seq<Word>, di: nat, si: nat, i: nat, ni: nat, f: Form)
    requires di <= si <= |name| && i <= ni && (ni == 8 || ni == 11) && |f.sfn| == 11
    requires forall k :: i <= k < ni ==> f.sfn[k] == 0x20
    ensures var r := FormFrom(cp, name, di, si, i, ni, f);
      && r.sfn == f.sfn[..i] + Field(cp, Solid(name, si, |name|), ni - i) + f.sfn[ni..]
      && (r.loss <==> f.loss || Loses(cp, name, si, |name|, ni - i))
    decreases |name| - si
  {
    hide MarkOf, Loses;
    if si == |name| {
      NothingLost(cp, name, si, ni - i);
      assert f.sfn[..i] + Field(cp, [], ni - i) + f.sfn[ni..] == f.sfn;
    } else {
      LosesFront(cp, name, si, |name|, ni - i);
      if name[si] == 0x20 || name[si] == 0x2E {
        LastPart(cp, name, di, si + 1, i, ni, f.(loss := true));
      } else if i >= ni {
        assert f.sfn[..i] + Field(cp, Solid(name, si, |name|), 0) + f.sfn[ni..] == f.sfn;
      } else {
        var m := MarkOf(cp, name[si]);
        var g := Form(f.sfn[i := m.c], f.loss || m.lossy);
        LastPart(cp, name, di, si + 1, i + 1, ni, g);
        var rest := Solid(name, si + 1, |name|);
        FieldFront(cp, name[si], rest, ni - i, f.sfn[..i]);
        Placed(f.sfn, i, m.c, ni);
        assert g.sfn[..i + 1] + Field(cp, rest, ni - (i + 1)) + f.sfn[ni..]
            == f.sfn[..i] + Field(cp, Solid(name, si, |name|), ni - i) + f.sfn[ni..];
      }
    }
  }

  lemma Placed(s: seq<Byte>, i: nat, c: Byte, ni: nat)
    requires i < ni <= |s|
    ensures s[i := c][..i + 1] == s[..i] + [c] && s[i := c][ni..] == s[ni..]
  {
  }

  lemma NothingLost(cp: CodePage, name: seq<Word>, a: nat, n: nat)
    requires a <= |name|
    ensures !Loses(cp, name, a, a, n)
  {
  }

  /** The loop in the body of a name with an extension: it ends behind the last dot, where the extension starts. */
  lemma {:induction false} FirstPart(cp: CodePage, name: seq<Word>, di: nat, si: nat, i: nat, f: Form)
    requires si < di <= |name| && name[di - 1] == 0x2E && i <= 8 && |f.sfn| == 11
    requires forall k :: i <= k < 8 ==> f.sfn[k] == 0x20
    ensures
      var g := Form(f.sfn[..i] + Field(cp, Solid(name, si, di - 1), 8 - i) + f.sfn[8..], false);
      var r, e := FormFrom(cp, name, di, si, i, 8, f), FormFrom(cp, name, di, di, 8, 11, g);
      r.sfn == e.sfn && (r.loss <==> (f.loss || Loses(cp, name, si, di - 1, 8 - i) || e.loss))
    decreases di - si
  {
    hide MarkOf, Loses;
    var g := f.sfn[..i] + Field(cp, Solid(name, si, di - 1), 8 - i) + f.sfn[8..];
    if si + 1 == di {
      NothingLost(cp, name, si, 8 - i);
      assert g == f.sfn;
      LossOnly(cp, name, di, di, 8, 11, f);
    } else {
      LosesFront(cp, name, si, di - 1, 8 - i);
      if name[si] == 0x20 || name[si] == 0x2E {
        FirstPart(cp, name, di, si + 1, i, f.(loss := true));
      } else if i == 8 {
        assert g == f.sfn;
        LossOnly(cp, name, di, di, 8, 11, f.(loss := true));
      } else {
        var m := MarkOf(cp, name[si]);
        var h := Form(f.sfn[i := m.c], f.loss || m.lossy);
        FirstPart(cp, name, di, si + 1, i + 1, h);
        FieldFront(cp, name[si], Solid(name, si + 1, di - 1), 8 - i, f.sfn[..i]);
        assert h.sfn[..i + 1] == f.sfn[..i] + [m.c] && h.sfn[8..] == f.sfn[8..];
      }
    }
  }

  /** A loss on the way does not change the bytes, and stays. */
  lemma {:induction false} LossOnly(cp: CodePage, name: seq<Word>, di: nat, si: nat, i: nat, ni: nat, f: Form)
    requires di <= |name| && i <= ni && (ni == 8 || ni == 11) && |f.sfn| == 11
    ensures FormFrom(cp, name, di, si, i, ni, f).sfn == FormFrom(cp, name, di, si, i, ni, f.(loss := false)).sfn
    ensures FormFrom(cp, name, di, si, i, ni, f).loss <==> f.loss || FormFrom(cp, name, di, si, i, ni, f.(loss := false)).loss
    decreases |name| - si
  {
    hide MarkOf;
    if si < |name| {
      if name[si] == SPACE || (name[si] == DOT && si + 1 != di) {
        LossOnly(cp, name, di, si + 1, i, ni, f.(loss := true));
      } else if i >= ni || si + 1 == di {
        if ni == 8 && si + 1 <= di {
          LossOnly(cp, name, di, di, 8, 11, f.(loss := true));
          LossOnly(cp, name, di, di, 8, 11, f);
        }
      } else {
        var m := MarkOf(cp, name[si]);
        LossOnly(cp, name, di, si + 1, i + 1, ni, Form(f.sfn[i := m.c], true));
        LossOnly(cp, name, di, si + 1, i + 1, ni, Form(f.sfn[i := m.c], f.loss));
      }
    }
  }

  /** The eleven bytes are this body and extension; a first byte that would mark a deleted entry is replaced. */
  predicate Consists(sfn: seq<Byte>, body: seq<Byte>, ext: seq<Byte>)
  {
    |body| > 0 && sfn == (if body[0] == 0xE5 then [0x05] + body[1..] else body) + ext
  }

  /**
   * The short form of a name with an extension: body and extension are what lies before and behind the last dot, without
   * leading spaces and dots, and each gives its first characters other than spaces and dots. It loses something exactly if
   * characters are left out, cut off or replaced.
   */
  lemma FormParts(cp: CodePage, name: seq<Word>)
    requires Leading(name) < AfterDot(name)
    ensures var n, d := Leading(name), AfterDot(name);
      && Consists(FormOf(cp, name).sfn, FieldOf(cp, name, n, d - 1, 8), FieldOf(cp, name, d, |name|, 3))
      && (FormOf(cp, name).loss <==> (n > 0 || Loses(cp, name, n, d - 1, 8) || Loses(cp, name, d, |name|, 3)))
  {
    hide MarkOf, Loses, FormFrom, Leading, AfterDot, FieldOf, Consists, Joined, FormOf, Unfilled;
    TwoParts(cp, name);
    var n, d := Leading(name), AfterDot(name);
    FormLoop(cp, name, FieldOf(cp, name, n, d - 1, 8), FieldOf(cp, name, d, |name|, 3));
  }

  /** The short form of a name without an extension: no dot is left behind the leading ones. */
  lemma FormBody(cp: CodePage, name: seq<Word>)
    requires Leading(name) >= AfterDot(name)
    ensures var n := Leading(name);
      && Consists(FormOf(cp, name).sfn, FieldOf(cp, name, n, |name|, 8), [0x20, 0x20, 0x20])
      && (FormOf(cp, name).loss <==> (n > 0 || Loses(cp, name, n, |name|, 8)))
  {
    hide MarkOf, Loses, FormFrom, Leading, AfterDot, FieldOf, Consists, Joined, FormOf, Unfilled;
    OnePart(cp, name);
    var n := Leading(name);
    FormLoop(cp, name, FieldOf(cp, name, n, |name|, 8), [0x20, 0x20, 0x20]);
  }

  predicate Joined(sfn: seq<Byte>, body: seq<Byte>, ext: seq<Byte>)
  {
    sfn == body + ext
  }

  lemma FormLoop(cp: CodePage, name: seq<Word>, body: seq<Byte>, ext: seq<Byte>)
    requires |body| > 0
    requires Joined(FormFrom(cp, name, AfterDot(name), Leading(name), 0, 8, Unfilled(Leading(name) > 0)).sfn, body, ext)
    ensures Consists(FormOf(cp, name).sfn, body, ext)
    ensures FormOf(cp, name).loss == FormFrom(cp, name, AfterDot(name), Leading(name), 0, 8, Unfilled(Leading(name) > 0)).loss
  {
    hide MarkOf, FormFrom, Leading, AfterDot, Unfilled;
  }

  lemma TwoParts(cp: CodePage, name: seq<Word>)
    requires Leading(name) < AfterDot(name)
    ensures var n, d := Leading(name), AfterDot(name);
      var f := FormFrom(cp, name, d, n, 0, 8, Unfilled(n > 0));
      && Joined(f.sfn, FieldOf(cp, name, n, d - 1, 8), FieldOf(cp, name, d, |name|, 3))
      && (f.loss <==> (n > 0 || Loses(cp, name, n, d - 1, 8) || Loses(cp, name, d, |name|, 3)))
  {
    hide MarkOf, Loses, FormFrom, Solid, Leading, AfterDot, Field;
    var n, d := Leading(name), AfterDot(name);
    var f := Unfilled(n > 0);
    FirstPart(cp, name, d, n, 0, f);
    var body := FieldOf(cp, name, n, d - 1, 8);
    var g := f.sfn[..0] + body + f.sfn[8..];
    assert g[..8] == body;
    LastPart(cp, name, d, d, 8, 11, Form(g, false));
    var ext := FieldOf(cp, name, d, |name|, 3);
    assert g[..8] + ext + g[11..] == body + ext;
  }

  lemma OnePart(cp: CodePage, name: seq<Word>)
    requires Leading(name) >= AfterDot(name)
    ensures var n := Leading(name);
      var f := FormFrom(cp, name, AfterDot(name), n, 0, 8, Unfilled(n > 0));
      && Joined(f.sfn, FieldOf(cp, name, n, |name|, 8), [0x20, 0x20, 0x20])
      && (f.loss <==> (n > 0 || Loses(cp, name, n, |name|, 8)))
  {
    hide MarkOf, Loses, FormFrom, Solid, Leading, AfterDot, Field;
    var n := Leading(name);
    var f := Unfilled(n > 0);
    LastPart(cp, name, AfterDot(name), n, 0, 8, f);
    var body := FieldOf(cp, name, n, |name|, 8);
    assert f.sfn[..0] + body + f.sfn[8..] == body + [0x20, 0x20, 0x20];
  }

  // ----- short names and letter case -----

  /** All characters of the name are in the code page. */
  ghost predicate Spelled(cp: CodePage, n: seq<Word>)
  {
    forall i :: 0 <= i < |n| ==> InPage(cp, n[i])
  }

  ghost predicate InPage(cp: CodePage, w: Word)
  {
    exists c: Byte :: cp.uni(c) == w
  }

  /** The two characters play the same part in a short name. */
  predicate Alike(cp: CodePage, v: Word, w: Word)
  {
    MarkOf(cp, v) == MarkOf(cp, w) && (v == SPACE <==> w == SPACE) && (v == DOT <==> w == DOT)
  }

  /** Conversion and upper-casing go together: characters of the page that searches do not tell apart are alike. */
  ghost predicate Folds(cp: CodePage, up: Word -> Word)
  {
    forall v, w :: InPage(cp, v) && InPage(cp, w) && up(v) == up(w) ==> Alike(cp, v, w)
  }

  ghost predicate AllAlike(cp: CodePage, n: seq<Word>, m: seq<Word>)
  {
    |n| == |m| && forall i :: 0 <= i < |n| ==> Alike(cp, n[i], m[i])
  }

  lemma {:induction false} DotsAlike(cp: CodePage, n: seq<Word>, m: seq<Word>)
    requires AllAlike(cp, n, m)
    ensures AfterDot(n) == AfterDot(m)
    decreases |n|
  {
    hide MarkOf;
    if n != [] { DotsAlike(cp, n[..|n| - 1], m[..|m| - 1]); }
  }

  lemma {:induction false} LeadingAlike(cp: CodePage, n: seq<Word>, m: seq<Word>)
    requires AllAlike(cp, n, m)
    ensures Leading(n) == Leading(m)
    decreases |n|
  {
    hide MarkOf;
    if n != [] { LeadingAlike(cp, n[1..], m[1..]); }
  }

  lemma {:induction false} FormAlike(cp: CodePage, n: seq<Word>, m: seq<Word>, di: nat, si: nat, i: nat, ni: nat, f: Form)
    requires AllAlike(cp, n, m) && di <= |n| && i <= ni && (ni == 8 || ni == 11) && |f.sfn| == 11
    ensures FormFrom(cp, n, di, si, i, ni, f) == FormFrom(cp, m, di, si, i, ni, f)
    decreases |n| - si
  {
    hide MarkOf;
    if si < |n| {
      assert Alike(cp, n[si], m[si]);
      if n[si] == SPACE || (n[si] == DOT && si + 1 != di) {
        FormAlike(cp, n, m, di, si + 1, i, ni, f.(loss := true));
      } else if i >= ni || si + 1 == di {
        if ni == 8 && si + 1 <= di { FormAlike(cp, n, m, di, di, 8, 11, if si + 1 == di then f else f.(loss := true)); }
      } else {
        var k := MarkOf(cp, n[si]);
        FormAlike(cp, n, m, di, si + 1, i + 1, ni, Form(f.sfn[i := k.c], f.loss || k.lossy));
      }
    }
  }

  /** Two names of the code page that searches do not tell apart have the same short form. */
  lemma FormFolded(cp: CodePage, up: Word -> Word, n: seq<Word>, m: seq<Word>)
    requires Folds(cp, up) && Spelled(cp, n) && Spelled(cp, m) && SameName(up, n, m)
    ensures FormOf(cp, n) == FormOf(cp, m)
  {
    hide MarkOf, FormFrom, Leading, AfterDot;
    forall i | 0 <= i < |n| ensures Alike(cp, n[i], m[i]) {}
    DotsAlike(cp, n, m);
    LeadingAlike(cp, n, m);
    var k := Leading(n);
    FormAlike(cp, n, m, AfterDot(n), k, 0, 8, Unfilled(k > 0));
  }

  /** A page with the letter y with diaeresis, which becomes Y in short names, but without its capital. */
  function OnePage(): CodePage
  {
    CodePage((c: Byte) => if c < 0x80 then c else if c == 0x98 then 0xFF else 0,
      (w: Word) => if w == 0xFF then 0x59 else 0)
  }

  function OneUp(w: Word): Word
  {
    if IsLower(w) then w - 0x20 else if w == 0xFF then 0x178 else w
  }

  /** With a character that is not in the page, searches do not tell names apart whose short forms differ. */
  lemma UnspelledExample()
    ensures Sane(OnePage()) && Folds(OnePage(), OneUp)
    ensures SameName(OneUp, [0xFF], [0x178]) && FormOf(OnePage(), [0xFF]) != FormOf(OnePage(), [0x178])
  {
    var cp := OnePage();
    forall v, w | InPage(cp, v) && InPage(cp, w) && OneUp(v) == OneUp(w)
      ensures Alike(cp, v, w)
    {
      var c: Byte :| cp.uni(c) == v;
      var d: Byte :| cp.uni(d) == w;
    }
    OneLetter(cp, 0xFF);
    OneLetter(cp, 0x178);
  }

  lemma OneLetter(cp: CodePage, w: Word)
    requires !Strippable(w)
    ensures FormOf(cp, [w]).loss == MarkOf(cp, w).lossy
  {
    hide MarkOf;
    var m := MarkOf(cp, w);
    var f := Unfilled(false);
    assert AfterDot([w]) == 0 && Leading([w]) == 0;
    assert FormFrom(cp, [w], 0, 1, 1, 8, Form(f.sfn[0 := m.c], m.lossy)) == Form(f.sfn[0 := m.c], m.lossy);
    assert FormFrom(cp, [w], 0, 0, 0, 8, f) == Form(f.sfn[0 := m.c], m.lossy);
  }

  // ----- the sets of characters, written out -----

  /** " * : < > ? | and DEL are rejected; + , ; = [ ] are replaced in short names; / and \\ end a segment, as controls do. */
  lemma CharacterSets(w: nat)
    ensures Illegal(w) <==> w == 0x22 || w == 0x2A || w == 0x3A || w == 0x3C || w == 0x3E || w == 0x3F || w == 0x7C || w == 0x7F
    ensures ShortIllegal(w) <==> w == 0x2B || w == 0x2C || w == 0x3B || w == 0x3D || w == 0x5B || w == 0x5D
    ensures IsEndOfSegment(w) <==> w < 0x20 || w == 0x2F || w == 0x5C
    ensures w < 0x1_0000 ==> (Strippable(w) <==> w == 0x20 || w == 0x2E)
  {
  }

  /** What becomes of an ASCII character, and of others. */
  lemma Marks(cp: CodePage, w: Word)
    requires w > 0
    ensures 0x61 <= w <= 0x7A ==> MarkOf(cp, w) == Mark(w - 0x20, false)
    ensures w in {0x2B, 0x2C, 0x3B, 0x3D, 0x5B, 0x5D} ==> MarkOf(cp, w) == Mark(0x5F, true)
    ensures w < 0x80 && !(0x61 <= w <= 0x7A) && w !in {0x2B, 0x2C, 0x3B, 0x3D, 0x5B, 0x5D} ==> MarkOf(cp, w) == Mark(w, false)
    ensures w >= 0x80 && cp.oem(w) == 0 ==> MarkOf(cp, w) == Mark(0x5F, true)
    ensures w >= 0x80 && cp.oem(w) >= 0x80 ==> MarkOf(cp, w) == Mark(cp.oem(w), false)
  {
  }

  /** Small letters in the body set the flag 0x08, in the extension 0x10; a first byte 0xE5 is stored as 0x05. */
  lemma StatusValues(last: bool)
    ensures Bits(Status(false, false, last, true, false)) == 0x08 + (if last then 0x04 else 0)
    ensures Bits(Status(false, false, last, false, true)) == 0x10 + (if last then 0x04 else 0)
    ensures Bits(Status(false, true, last, false, false)) == 0x02 + (if last then 0x04 else 0)
    ensures Bits(Status(true, true, last, false, false)) == 0x03 + (if last then 0x04 else 0)
    ensures NDDE == 0x05 && DDE == 0xE5
  {
  }

  /** What an entry prints as, byte by byte: the body in small letters with the flag 0x08, the extension with 0x10. */
  lemma PrintedBytes(e: Entry, k: nat)
    ensures k < |Part(e, 0, 8, e[12] / 8 % 2 == 1)| ==>
      && k < 8 && (forall j :: 0 <= j <= k ==> e[j] != 0x20)
      && var c := if e[k] == 0x05 then 0xE5 else e[k];
         Part(e, 0, 8, e[12] / 8 % 2 == 1)[k] == if e[12] / 0x08 % 2 == 1 && 0x41 <= c <= 0x5A then c + 0x20 else c
    ensures k < |Part(e, 8, 11, e[12] / 16 % 2 == 1)| ==>
      && k < 3 && (forall j :: 8 <= j <= 8 + k ==> e[j] != 0x20)
      && Part(e, 8, 11, e[12] / 16 % 2 == 1)[k] ==
           if e[12] / 0x10 % 2 == 1 && 0x41 <= e[8 + k] <= 0x5A then e[8 + k] + 0x20 else e[8 + k]
  {
    PartAt(e, 0, 8, e[12] / 8 % 2 == 1, k);
    PartAt(e, 8, 11, e[12] / 16 % 2 == 1, k);
  }

  lemma {:induction false} PartAt(e: Entry, a: nat, b: nat, small: bool, k: nat)
    requires a <= b <= 32
    ensures k < |Part(e, a, b, small)| ==>
      && a + k < b && (forall j :: a <= j <= a + k ==> e[j] != 0x20)
      && Part(e, a, b, small)[k] == Shown(if a + k < 8 && e[a + k] == 0x05 then 0xE5 else e[a + k], small)
    decreases k
  {
    hide Shown;
    if a < b && e[a] != SPACE && k > 0 { PartAt(e, a + 1, b, small, k - 1); }
  }
}
