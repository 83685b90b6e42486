/** 8.3 names: a file name to its entry in a directory and back. */
module FatNames {
  import opened Wrappers

  type Byte = b: nat | b < 256

  const SPACE: Byte := 32
  const DOT: Byte := 46
  const SLASH: Byte := 47
  const TILDE: Byte := 126
  const ONE: Byte := 49

  /** The punctuation a name may hold, with the space. */
  const PUNCTUATION: set<Byte> := {33, 35, 36, 37, 38, 39, 40, 41, 45, 64, 94, 95, 96, 123, 125, 126, 32}

  /** `doschar`: 0 for the end, 1 for an illegal character, letters capitalised. */
  function DosChar(c: Byte): Byte {
    if c == 0 then 0
    else if c == SLASH || c == 92 then SLASH
    else if c == DOT then DOT
    else if 65 <= c <= 90 then c
    else if 48 <= c <= 57 then c
    else if 97 <= c <= 122 then c - 32
    else if c == 0xE5 then 0x05
    else if c > 127 then c
    else if c in PUNCTUATION then c
    else 1
  }

  /** What `doschar` makes of each character, by the characters: letters, digits and some punctuation may stand
      in a name, two kinds of slash part paths, the dot and what is beyond ASCII go through, all else is
      illegal. */
  lemma DosCharTable(c: Byte)
    ensures var d, ch := DosChar(c), c as char;
            if 'a' <= ch <= 'z' then d + 32 == c
            else if ch == '\\' then d == '/' as int
            else if c == 0xE5 then d == 5
            else if 'A' <= ch <= 'Z' || '0' <= ch <= '9' || c == 0 || c >= 128 || ch in {'.', '/'} || ch in " !#$%&'()-@^_`{}~"
              then d == c
            else d == 1
  {
    var s := " !#$%&'()-@^_`{}~";
    assert s[0] == ' ' && s[1] == '!' && s[2] == '#' && s[3] == '$' && s[4] == '%' && s[5] == '&' && s[6] == '\''
        && s[7] == '(' && s[8] == ')' && s[9] == '-' && s[10] == '@' && s[11] == '^' && s[12] == '_' && s[13] == '`'
        && s[14] == '{' && s[15] == '}' && s[16] == '~';
  }

  /** A C string: the bytes up to and with the first 0. */
  predicate CString(t: seq<Byte>) { |t| > 0 && t[|t| - 1] == 0 && forall i | 0 <= i < |t| - 1 :: t[i] != 0 }

  // ---------------------------------------------------------------- str_to_fatname

  /** Length of the base and the extension: after the last dot, unless that is the first or the last
      character; a trailing dot means no extension. */
  function LastDot(t: seq<Byte>, i: int): (r: (nat, seq<Byte>))
    requires CString(t) && i < |t| - 1
    ensures CString(r.1)
    decreases i
  {
    if i <= 0 then (|t| - 1, [0]) else if t[i] == DOT then (i, t[i + 1..]) else LastDot(t, i - 1)
  }

  function NameParts(t: seq<Byte>): (r: (nat, seq<Byte>))
    requires CString(t) && |t| > 1
    ensures CString(r.1)
  {
    if t[|t| - 2] == DOT then (|t| - 2, [0]) else LastDot(t, |t| - 3)
  }

  /** How copying a base ends: on an illegal character, the end of the string, or a dot or the limit. */
  datatype Copy = Illegal | Ended(text: seq<Byte>) | Stopped(text: seq<Byte>)

  function CopyBase(t: seq<Byte>, j: nat, n: nat, done: seq<Byte>): (r: Copy)
    requires CString(t) && j < |t|
    ensures !r.Illegal? ==> |r.text| <= |done| + n
    decreases n
  {
    if n == 0 then Stopped(done)
    else
      var c := DosChar(t[j]);
      if c == 1 then Illegal
      else if c == 0 then Ended(done)
      else if c == DOT then Stopped(done)
      else CopyBase(t, j + 1, n - 1, done + [c])
  }

  function CopyExtension(e: seq<Byte>, j: nat, n: nat, done: seq<Byte>): (r: Option<seq<Byte>>)
    requires CString(e) && j < |e|
    ensures r.Some? ==> |r.value| <= |done| + n
    decreases n
  {
    if n == 0 then Some(done)
    else
      var c := DosChar(e[j]);
      if c == 0 then Some(done)
      else if c == 1 then None
      else CopyExtension(e, j + 1, n - 1, done + [c])
  }

  function LongName(t: seq<Byte>): bool
    requires CString(t) && |t| > 1
  {
    NameParts(t).0 > 8 || |NameParts(t).1| - 1 > 3
  }

  /** `str_to_fatname`: the text it writes, without its terminator; None for an illegal character. */
  function FatString(t: seq<Byte>): (r: Option<seq<Byte>>)
    requires CString(t) && |t| > 1
    ensures r.Some? ==> |r.value| <= 12
  {
    match CopyBase(t, 0, if LongName(t) then 6 else 8, [])
    case Illegal => None
    case Ended(s) => Some(s)
    case Stopped(s) =>
      CopyExtension(NameParts(t).1, 0, 3, s + (if LongName(t) then [TILDE, ONE] else []) + [DOT])
  }

  method FindParts(t: seq<Byte>) returns (nameLen: nat, extension: seq<Byte>)
    requires CString(t) && |t| > 1
    ensures (nameLen, extension) == NameParts(t)
  {
    nameLen, extension := |t| - 1, [0];
    if t[|t| - 2] == DOT {
      nameLen := |t| - 2;
    } else {
      var i := |t| - 3;
      while i > 0
        invariant i < |t| - 1 && LastDot(t, i) == LastDot(t, |t| - 3)
        decreases i
      {
        if t[i] == DOT {
          return i, t[i + 1..];
        }
        i := i - 1;
      }
    }
  }

  /** The copying loops of the base, up to the limit. */
  method PutBase(t: seq<Byte>, out: array<Byte>, limit: nat) returns (r: int, i: nat)
    requires CString(t) && |t| > 1 && out.Length >= 13 && limit <= 8
    modifies out
    ensures match CopyBase(t, 0, limit, [])
            case Illegal => r == 1
            case Ended(s) => r == 0 && i == |s| && out[..i] == s && out[i] == 0
            case Stopped(s) => r == -1 && i == |s| && out[..i] == s
    ensures i <= limit
  {
    r, i := -1, 0;
    var j := 0;
    while i < limit
      invariant i <= limit && j == i && j < |t|
      invariant CopyBase(t, j, limit - i, out[..i]) == CopyBase(t, 0, limit, [])
    {
      var c := DosChar(t[j]);
      out[i] := c;
      j := j + 1;
      if c == 1 {
        return 1, i;
      } else if c == 0 {
        return 0, i;
      } else if c == DOT {
        return -1, i;
      }
      i := i + 1;
      assert out[..i] == out[..i - 1] + [c];
    }
  }

  /** The extension, behind the bytes written so far; what it returns is 1 for an illegal character. */
  method PutCopied(e: seq<Byte>, out: array<Byte>, start: nat) returns (r: int)
    requires CString(e) && out.Length >= 13 && start <= 9
    modifies out
    ensures var s := CopyExtension(e, 0, 3, old(out[..start]));
            if s.None? then r == 1 else r == 0 && out[..|s.value|] == s.value && out[|s.value|] == 0
  {
    hide DosChar;
    DosEnds();
    var i, j := start, 0;
    while j < 3
      invariant 0 <= j <= 3 && j < |e| && i == start + j
      invariant CopyExtension(e, j, 3 - j, out[..i]) == CopyExtension(e, 0, 3, old(out[..start]))
    {
      var c := DosChar(e[j]);
      out[i] := c;
      i := i + 1;
      if c == 0 {
        assert out[..i - 1] == CopyExtension(e, 0, 3, old(out[..start])).value;
        return 0;
      } else if c == 1 {
        return 1;
      }
      StillInside(e, j);
      j := j + 1;
      assert out[..i] == out[..i - 1] + [c];
    }
    out[i] := 0;
    return 0;
  }

  lemma StillInside(t: seq<Byte>, j: nat)
    requires CString(t) && j < |t| && DosChar(t[j]) != 0
    ensures j + 1 < |t|
  {
  }

  lemma DosEnds()
    ensures DosChar(0) == 0 && DosChar(DOT) == DOT
  {
  }

  /** `str_to_fatname`; 13 bytes are always enough. */
  method StrToFatname(t: seq<Byte>, out: array<Byte>) returns (r: int)
    requires CString(t) && |t| > 1 && out.Length >= 13
    modifies out
    ensures r == if FatString(t).None? then 1 else 0
    ensures r == 0 ==> var s := FatString(t).value; out[..|s|] == s && out[|s|] == 0
  {
    hide DosChar, CopyBase, CopyExtension, NameParts;
    var nameLen, extension := FindParts(t);
    var long := nameLen > 8 || |extension| - 1 > 3;
    var i;
    r, i := PutBase(t, out, if long then 6 else 8);
    if r >= 0 {
      return;
    }
    ghost var s := out[..i];
    if long {
      out[i] := TILDE;
      i := i + 1;
      out[i] := ONE;
      i := i + 1;
    }
    out[i] := DOT;
    i := i + 1;
    assert out[..i] == s + (if long then [TILDE, ONE] else []) + [DOT];
    r := PutCopied(extension, out, i);
  }

  // ---------------------------------------------------------------- make_dos_name

  /** The scan of a path: eleven bytes, the last character read, and the place after it. */
  datatype Scan = Failed | Scanned(name: seq<Byte>, c: Byte, p: nat)

  /** A character that is not the end has been read from before the terminator. */
  predicate ReadFrom(t: seq<Byte>, c: Byte, p: nat) { CString(t) && 0 < p <= |t| && (c != 0 ==> p < |t|) }

  predicate EndsName(c: Byte) { c == SLASH || c == 0 }

  lemma NextRead(t: seq<Byte>, p: nat)
    requires CString(t) && p < |t|
    ensures ReadFrom(t, DosChar(t[p]), p + 1) && (DosChar(t[p]) == 0 <==> t[p] == 0)
  {
  }

  /** The first eight bytes, from number i on. */
  function ScanBase(name: seq<Byte>, t: seq<Byte>, i: nat, c: Byte, p: nat): (r: Scan)
    requires |name| == 11 && i <= 8 && ReadFrom(t, c, p)
    ensures r.Scanned? ==> |r.name| == 11 && ReadFrom(t, r.c, r.p)
    decreases 8 - i
  {
    if i == 8 then Scanned(name, c, p)
    else if EndsName(c) then ScanBase(name[i := SPACE], t, i + 1, c, p)
    else
      NextRead(t, p);
      if c == DOT then
        if i == 0 then ScanBase(name[0 := DOT], t, 1, DosChar(t[p]), p + 1)
        else if i == 1 then
          if EndsName(DosChar(t[p])) then ScanBase(name[1 := DOT], t, 2, DosChar(t[p]), p + 1)
          else ScanBase(name, t, 2, c, p)
        else ScanBase(name[i := SPACE], t, i + 1, c, p)
      else if c == 1 then Failed
      else ScanBase(name[i := c], t, i + 1, DosChar(t[p]), p + 1)
  }

  /** The last three bytes, from number i on, if an extension follows. */
  function ScanExtension(name: seq<Byte>, t: seq<Byte>, i: nat, follows: bool, c: Byte, p: nat): (r: Scan)
    requires |name| == 11 && i <= 3 && ReadFrom(t, c, p)
    ensures r.Scanned? ==> |r.name| == 11 && ReadFrom(t, r.c, r.p)
    decreases 3 - i
  {
    if i == 3 then Scanned(name, c, p)
    else if !follows || EndsName(c) then ScanExtension(name[8 + i := SPACE], t, i + 1, follows, c, p)
    else if c == 1 || c == DOT then Failed
    else
      NextRead(t, p);
      ScanExtension(name[8 + i := c], t, i + 1, follows, DosChar(t[p]), p + 1)
  }

  /** `make_dos_name` on what the buffer held; the name's end is left under the path pointer. */
  function DosName(name: seq<Byte>, t: seq<Byte>, p: nat): (r: Option<(seq<Byte>, nat)>)
    requires |name| == 11 && CString(t) && p < |t|
  {
    NextRead(t, p);
    match ScanBase(name, t, 0, DosChar(t[p]), p + 1)
    case Failed => None
    case Scanned(base, c, q) =>
      if EndsName(c) then Finish(t, ScanExtension(base, t, 0, false, c, q))
      else
        NextRead(t, q);
        var d := DosChar(t[q]);
        if c == DOT then Finish(t, ScanExtension(base, t, 0, true, d, q + 1))
        else if EndsName(d) then Finish(t, ScanExtension(base, t, 0, false, d, q + 1))
        else if d == DOT then
          NextRead(t, q + 1);
          Finish(t, ScanExtension(base, t, 0, true, DosChar(t[q + 1]), q + 2))
        else None
  }

  function Finish(t: seq<Byte>, s: Scan): Option<(seq<Byte>, nat)>
    requires s.Scanned? ==> ReadFrom(t, s.c, s.p)
  {
    if s.Scanned? && EndsName(s.c) then Some((s.name, s.p - 1)) else None
  }

  method PutScanBase(out: array<Byte>, t: seq<Byte>, start: nat) returns (ok: bool, c: Byte, p: nat)
    requires CString(t) && start < |t| && out.Length >= 12
    modifies out
    ensures start < |t| && ReadFrom(t, DosChar(t[start]), start + 1)
    ensures var r := ScanBase(old(out[..11]), t, 0, DosChar(t[start]), start + 1);
            if r.Failed? then !ok else ok && (out[..11], c, p) == (r.name, r.c, r.p)
    ensures out[11] == old(out[11])
  {
    hide DosChar;
    NextRead(t, start);
    ghost var was := out[..11];
    c, p, ok := DosChar(t[start]), start + 1, true;
    var i := 0;
    while i < 8
      invariant 0 <= i <= 8 && ReadFrom(t, c, p) && out[11] == old(out[11])
      invariant ScanBase(out[..11], t, i, c, p) == ScanBase(was, t, 0, DosChar(t[start]), start + 1)
    {
      ghost var before := out[..11];
      if EndsName(c) {
        out[i] := SPACE;
        assert out[..11] == before[i := SPACE];
      } else {
        NextRead(t, p);
        if c == DOT {
          if i == 0 {
            out[i] := DOT;
            assert out[..11] == before[0 := DOT];
            c, p := DosChar(t[p]), p + 1;
          } else if i == 1 {
            if t[p] == 0 || DosChar(t[p]) == SLASH {
              out[i] := DOT;
              assert out[..11] == before[1 := DOT];
              c, p := DosChar(t[p]), p + 1;
            }
          } else {
            out[i] := SPACE;
            assert out[..11] == before[i := SPACE];
          }
        } else if c == 1 {
          return false, c, p;
        } else {
          out[i] := c;
          assert out[..11] == before[i := c];
          c, p := DosChar(t[p]), p + 1;
        }
      }
      i := i + 1;
    }
  }

  method PutScanExtension(out: array<Byte>, t: seq<Byte>, follows: bool, c0: Byte, p0: nat) returns (ok: bool,
      c: Byte, p: nat)
    requires ReadFrom(t, c0, p0) && out.Length >= 12
    modifies out
    ensures var r := ScanExtension(old(out[..11]), t, 0, follows, c0, p0);
            if r.Failed? then !ok else ok && (out[..11], c, p) == (r.name, r.c, r.p)
    ensures out[11] == old(out[11])
  {
    ghost var was := out[..11];
    c, p, ok := c0, p0, true;
    var i := 0;
    while i < 3
      invariant 0 <= i <= 3 && ReadFrom(t, c, p) && out[11] == old(out[11])
      invariant ScanExtension(out[..11], t, i, follows, c, p) == ScanExtension(was, t, 0, follows, c0, p0)
    {
      ghost var before := out[..11];
      if follows {
        if EndsName(c) {
          out[8 + i] := SPACE;
          assert out[..11] == before[8 + i := SPACE];
        } else if c == 1 {
          return false, c, p;
        } else if c == DOT {
          return false, c, p;
        } else {
          NextRead(t, p);
          out[8 + i] := c;
          assert out[..11] == before[8 + i := c];
          c, p := DosChar(t[p]), p + 1;
        }
      } else {
        out[8 + i] := SPACE;
        assert out[..11] == before[8 + i := SPACE];
      }
      i := i + 1;
    }
  }

  /** `make_dos_name`: 12 bytes, and the path is never read past its end. */
  method MakeDosName(out: array<Byte>, t: seq<Byte>, start: nat) returns (r: int, p: nat)
    requires CString(t) && start < |t| && out.Length >= 12
    modifies out
    ensures var d := DosName(old(out[..11]), t, start);
            if d.None? then r == -1 else r == 0 && out[..11] == d.value.0 && p == d.value.1 && out[11] == 0
  {
    hide DosChar, ScanBase, ScanExtension;
    out[11] := 0;
    assert out[..11] == old(out[..11]);
    ghost var was := out[..11];
    var ok, c;
    ok, c, p := PutScanBase(out, t, start);
    if !ok {
      return -1, p;
    }
    var follows := false;
    if c == DOT {
      follows := true;
      NextRead(t, p);
      c, p := DosChar(t[p]), p + 1;
    } else if !EndsName(c) {
      NextRead(t, p);
      c, p := DosChar(t[p]), p + 1;
      if c == DOT {
        follows := true;
        NextRead(t, p);
        c, p := DosChar(t[p]), p + 1;
      } else if !EndsName(c) {
        return -1, p;
      }
    }
    ok, c, p := PutScanExtension(out, t, follows, c, p);
    if !ok || !EndsName(c) {
      return -1, p;
    }
    return 0, p - 1;
  }

  // ---------------------------------------------------------------- fatname_to_str

  /** The bytes that are no spaces. */
  function Unpadded(s: seq<Byte>): (r: seq<Byte>)
    ensures |r| <= |s|
  {
    if s == [] then [] else Unpadded(s[..|s| - 1]) + (if s[|s| - 1] != SPACE then [s[|s| - 1]] else [])
  }

  /** The bytes before the first space. */
  function UntilSpace(s: seq<Byte>): (r: seq<Byte>)
    ensures |r| <= |s|
  {
    if s == [] || s[0] == SPACE then [] else [s[0]] + UntilSpace(s[1..])
  }

  /** `fatname_to_str`, without the terminator. */
  function NameString(name: seq<Byte>): (r: seq<Byte>)
    requires |name| == 11
    ensures |r| <= 12
  {
    Unpadded(name[..8]) + (if name[8] == SPACE then [] else [DOT] + UntilSpace(name[8..]))
  }

  /** `fatname_to_str`; 13 bytes are always enough. */
  method FatnameToStr(out: array<Byte>, name: seq<Byte>)
    requires out.Length >= 13 && |name| == 11
    modifies out
    ensures var s := NameString(name); out[..|s|] == s && out[|s|] == 0
  {
    var i, o := 0, 0;
    while i < 8
      invariant 0 <= i <= 8 && o <= i && out[..o] == Unpadded(name[..i])
    {
      assert name[..i + 1][..i] == name[..i];
      if name[i] != SPACE {
        out[o] := name[i];
        o := o + 1;
        assert out[..o] == out[..o - 1] + [name[i]];
      }
      i := i + 1;
    }
    if name[8] == SPACE {
      out[o] := 0;
      return;
    }
    PutExtension(out, name, o);
    assert Unpadded(name[..8]) + ([DOT] + UntilSpace(name[8..])) == NameString(name);
  }

  /** The dot and the extension, behind o bytes of base. */
  method PutExtension(out: array<Byte>, name: seq<Byte>, start: nat)
    requires out.Length >= 13 && |name| == 11 && start <= 8
    modifies out
    ensures var s := old(out[..start]) + ([DOT] + UntilSpace(name[8..]));
            |s| <= 12 && out[..|s|] == s && out[|s|] == 0
  {
    var i, o := 0, start + 1;
    out[start] := DOT;
    ghost var base := out[..o];
    while i < 3
      invariant 0 <= i <= 3 && o == start + 1 + i
      invariant out[..o] + UntilSpace(name[8 + i..]) == base + UntilSpace(name[8..])
    {
      assert name[8 + i..][1..] == name[8 + i + 1..];
      if name[8 + i] == SPACE {
        break;
      }
      out[o] := name[8 + i];
      assert out[..o + 1] == out[..o] + [name[8 + i]];
      o, i := o + 1, i + 1;
    }
    assert UntilSpace(name[8 + i..]) == [] && out[..o] == base + UntilSpace(name[8..]);
    assert base == old(out[..start]) + [DOT];
    out[o] := 0;
  }

  // ---------------------------------------------------------------- round trip

  /** A character that may stand in a name and comes back: legal, no dot or slash, no space, and not
      0xE5, whose substitute is not turned back. */
  predicate Plain(c: Byte) {
    c != SPACE && c != 0xE5 && DosChar(c) != 0 && DosChar(c) != 1 && DosChar(c) != SLASH && DosChar(c) != DOT
  }

  predicate AllPlain(s: seq<Byte>) { forall i | 0 <= i < |s| :: Plain(s[i]) }

  function Upper(s: seq<Byte>): (r: seq<Byte>)
    ensures |r| == |s| && forall i | 0 <= i < |s| :: r[i] == DosChar(s[i])
  {
    seq(|s|, i requires 0 <= i < |s| => DosChar(s[i]))
  }

  lemma PlainFacts(c: Byte)
    requires Plain(c)
    ensures c != 0 && c != DOT && DosChar(DosChar(c)) == DosChar(c) && Plain(DosChar(c))
  {
  }

  /** A base and an extension as one writes them. */
  function Written(base: seq<Byte>, ext: seq<Byte>): seq<Byte> { if ext == [] then base else base + [DOT] + ext }

  /** A name padded to the eleven bytes of a directory entry; `gap` is what byte 1 holds if the base
      has one character and an extension follows. */
  function Padded(base: seq<Byte>, ext: seq<Byte>, gap: Byte): (r: seq<Byte>)
    requires 1 <= |base| <= 8 && |ext| <= 3
    ensures |r| == 11
  {
    var spaces := [SPACE, SPACE, SPACE, SPACE, SPACE, SPACE, SPACE, SPACE];
    var b := base + spaces[|base|..];
    (if |base| == 1 && ext != [] then b[1 := gap] else b) + ext + spaces[|ext| + 5..]
  }

  lemma DotPlaces(base: seq<Byte>, ext: seq<Byte>, i: nat)
    requires AllPlain(base) && AllPlain(ext) && |base| >= 1
    requires i < |Written(base, ext)| && Written(base, ext)[i] == DOT
    ensures ext != [] && i == |base|
  {
    NoDots(base);
    NoDots(ext);
    assert ext != [] ==> Written(base, ext)[|base| + 1..] == ext;
  }

  lemma NoDots(s: seq<Byte>)
    requires AllPlain(s)
    ensures forall i | 0 <= i < |s| :: s[i] != DOT && s[i] != 0
  {
    forall i | 0 <= i < |s| ensures s[i] != DOT && s[i] != 0 { PlainFacts(s[i]); }
  }

  lemma WrittenString(base: seq<Byte>, ext: seq<Byte>)
    requires AllPlain(base) && AllPlain(ext)
    ensures CString(Written(base, ext) + [0]) && CString(ext + [0])
  {
    NoDots(base);
    NoDots(ext);
  }

  lemma {:induction false} LastDotIs(base: seq<Byte>, ext: seq<Byte>, i: int)
    requires AllPlain(base) && AllPlain(ext) && |base| >= 1 && i < |Written(base, ext)|
    requires ext != [] ==> i >= |base|
    ensures CString(Written(base, ext) + [0])
    ensures LastDot(Written(base, ext) + [0], i)
         == if ext == [] then (|base|, [0]) else (|base|, ext + [0])
    decreases i
  {
    WrittenString(base, ext);
    var w, t := Written(base, ext), Written(base, ext) + [0];
    if i > 0 {
      if t[i] == DOT {
        DotPlaces(base, ext, i);
        assert t[i + 1..] == ext + [0];
      } else {
        LastDotIs(base, ext, i - 1);
      }
    }
  }

  lemma PartsOf(base: seq<Byte>, ext: seq<Byte>)
    requires AllPlain(base) && AllPlain(ext) && |base| >= 1
    ensures CString(Written(base, ext) + [0])
    ensures NameParts(Written(base, ext) + [0]) == (|base|, ext + [0])
  {
    WrittenString(base, ext);
    NoDots(base);
    NoDots(ext);
    var w, t := Written(base, ext), Written(base, ext) + [0];
    assert t[|t| - 2] == if ext == [] then base[|base| - 1] else ext[|ext| - 1];
    if ext == [] {
      LastDotIs(base, ext, |t| - 3);
      assert ext + [0] == [0];
    } else {
      LastDotIs(base, ext, |t| - 3);
    }
  }

  /** The base copies over in capitals, up to the dot or the end. */
  lemma {:induction false} CopiesBase(base: seq<Byte>, ext: seq<Byte>, j: nat, n: nat)
    requires AllPlain(base) && AllPlain(ext) && j <= |base| && |base| - j <= n
    ensures CString(Written(base, ext) + [0])
    ensures CopyBase(Written(base, ext) + [0], j, n, Upper(base[..j]))
         == if ext == [] && n > |base| - j then Ended(Upper(base)) else Stopped(Upper(base))
    decreases n
  {
    hide DosChar, Upper;
    DosEnds();
    WrittenString(base, ext);
    var t := Written(base, ext) + [0];
    assert base[..|base|] == base;
    if j < |base| {
      assert t[j] == base[j] && Plain(base[j]);
      assert Upper(base[..j]) + [DosChar(base[j])] == Upper(base[..j + 1]);
      CopiesBase(base, ext, j + 1, n - 1);
    } else {
      assert t[j] == if ext == [] then 0 else DOT;
    }
  }

  lemma {:induction false} CopiesExtension(ext: seq<Byte>, j: nat, n: nat, done: seq<Byte>)
    requires AllPlain(ext) && j <= |ext| && |ext| - j <= n
    ensures CString(ext + [0])
    ensures CopyExtension(ext + [0], j, n, done) == Some(done + Upper(ext[j..]))
    decreases n
  {
    NoDots(ext);
    var e := ext + [0];
    if j < |ext| {
      assert e[j] == ext[j] && Plain(ext[j]);
      CopiesExtension(ext, j + 1, n - 1, done + [DosChar(ext[j])]);
      assert done + Upper(ext[j..]) == done + [DosChar(ext[j])] + Upper(ext[j + 1..]);
    } else {
      assert done + Upper(ext[j..]) == done;
    }
  }

  /** `str_to_fatname` of a plain 8.3 name: the name in capitals, with a dot behind a base of eight
      without extension. */
  lemma FatStringOf(base: seq<Byte>, ext: seq<Byte>)
    requires AllPlain(base) && AllPlain(ext) && 1 <= |base| <= 8 && |ext| <= 3
    ensures CString(Written(base, ext) + [0])
    ensures FatString(Written(base, ext) + [0])
         == Some(if ext == [] then Upper(base) + (if |base| == 8 then [DOT] else [])
                 else Written(Upper(base), Upper(ext)))
  {
    hide DosChar, CopyBase, CopyExtension, NameParts, CString, Plain, Upper;
    PartsOf(base, ext);
    assert base[..0] == [] && Upper(base[..0]) == [];
    CopiesBase(base, ext, 0, 8);
    assert Upper(base) + [] == Upper(base);
    if ext != [] || |base| == 8 {
      CopiesExtension(ext, 0, 3, Upper(base) + [DOT]);
      assert ext[0..] == ext;
      assert Upper(base) + [] + [DOT] == Upper(base) + [DOT];
      assert ext == [] ==> Upper(base) + [DOT] + Upper(ext) == Upper(base) + [DOT];
      assert |Upper(ext)| == |ext|;
    }
  }

  /** A dot in front is no part's end, and one behind the name leaves no extension. */
  lemma DotsAtEnds(s: seq<Byte>)
    requires AllPlain(s) && s != []
    ensures CString([46] + s + [0]) && NameParts([46] + s + [0]) == (|s| + 1, [0])
    ensures CString(s + [46, 0]) && NameParts(s + [46, 0]) == (|s|, [0])
  {
    NoDots(s);
    var t := [46] + s + [0];
    assert t[|t| - 2] == s[|s| - 1];
    NoneBehind(t, |t| - 3);
    assert (s + [46, 0])[|s|] == DOT;
  }

  lemma {:induction false} NoneBehind(t: seq<Byte>, i: int)
    requires CString(t) && i < |t| - 1 && forall k | 0 < k < |t| :: t[k] != DOT
    ensures LastDot(t, i) == (|t| - 1, [0])
    decreases i
  {
    if i > 0 {
      NoneBehind(t, i - 1);
    }
  }

  /** No character of s ends a name or is illegal. */
  predicate Legal(s: seq<Byte>) { forall i | 0 <= i < |s| :: s[i] != 0 && s[i] != 1 }

  lemma {:induction false} BaseLegal(t: seq<Byte>, j: nat, n: nat, done: seq<Byte>)
    requires CString(t) && j < |t| && Legal(done)
    ensures !CopyBase(t, j, n, done).Illegal? ==> Legal(CopyBase(t, j, n, done).text)
    decreases n
  {
    hide DosChar;
    DosEnds();
    if n > 0 && DosChar(t[j]) != 0 && DosChar(t[j]) != 1 && DosChar(t[j]) != DOT {
      BaseLegal(t, j + 1, n - 1, done + [DosChar(t[j])]);
    }
  }

  lemma {:induction false} ExtensionLegal(e: seq<Byte>, j: nat, n: nat, done: seq<Byte>)
    requires CString(e) && j < |e| && Legal(done)
    ensures CopyExtension(e, j, n, done).Some? ==> Legal(CopyExtension(e, j, n, done).value)
    decreases n
  {
    hide DosChar;
    DosEnds();
    if n > 0 && DosChar(e[j]) != 0 && DosChar(e[j]) != 1 {
      ExtensionLegal(e, j + 1, n - 1, done + [DosChar(e[j])]);
    }
  }

  /** Whatever the text, what `str_to_fatname` accepts has no illegal character left in it. */
  lemma AcceptedIsLegal(t: seq<Byte>)
    requires CString(t) && |t| > 1
    ensures FatString(t).Some? ==> Legal(FatString(t).value)
  {
    hide CopyBase, CopyExtension, NameParts;
    BaseLegal(t, 0, if LongName(t) then 6 else 8, []);
    var b := CopyBase(t, 0, if LongName(t) then 6 else 8, []);
    if b.Stopped? {
      ExtensionLegal(NameParts(t).1, 0, 3, b.text + (if LongName(t) then [TILDE, ONE] else []) + [DOT]);
    }
  }

  lemma {:induction false} CutsBase(base: seq<Byte>, ext: seq<Byte>, j: nat, n: nat)
    requires AllPlain(base) && AllPlain(ext) && j + n <= |base|
    ensures CString(Written(base, ext) + [0])
    ensures CopyBase(Written(base, ext) + [0], j, n, Upper(base[..j])) == Stopped(Upper(base[..j + n]))
    decreases n
  {
    hide DosChar, Upper;
    WrittenString(base, ext);
    if n > 0 {
      assert (Written(base, ext) + [0])[j] == base[j] && Plain(base[j]);
      assert Upper(base[..j]) + [DosChar(base[j])] == Upper(base[..j + 1]);
      CutsBase(base, ext, j + 1, n - 1);
    }
  }

  lemma {:induction false} CutsExtension(ext: seq<Byte>, j: nat, n: nat, done: seq<Byte>)
    requires AllPlain(ext) && j + n <= |ext|
    ensures CString(ext + [0])
    ensures CopyExtension(ext + [0], j, n, done) == Some(done + Upper(ext[j..j + n]))
    decreases n
  {
    NoDots(ext);
    if n > 0 {
      assert (ext + [0])[j] == ext[j] && Plain(ext[j]);
      CutsExtension(ext, j + 1, n - 1, done + [DosChar(ext[j])]);
      assert done + Upper(ext[j..j + n]) == done + [DosChar(ext[j])] + Upper(ext[j + 1..j + n]);
    } else {
      assert done + Upper(ext[j..j]) == done;
    }
  }

  /** `str_to_fatname` of a name that is too long: up to six characters of the base, "~1", a dot and up to
      three characters of the extension, in capitals. */
  lemma LongNameOf(base: seq<Byte>, ext: seq<Byte>)
    requires AllPlain(base) && AllPlain(ext) && |base| >= 1 && (|base| > 8 || |ext| > 3)
    ensures CString(Written(base, ext) + [0])
    ensures FatString(Written(base, ext) + [0])
         == Some(Upper(base[..if |base| < 6 then |base| else 6]) + [126, 49, 46]
                 + Upper(ext[..if |ext| < 3 then |ext| else 3]))
  {
    hide DosChar, CopyBase, CopyExtension, NameParts, CString, Plain, Upper;
    PartsOf(base, ext);
    assert base[..0] == [] && Upper(base[..0]) == [];
    if |base| < 6 {
      CopiesBase(base, ext, 0, 6);
      assert base[..|base|] == base;
    } else {
      CutsBase(base, ext, 0, 6);
    }
    var s := Upper(base[..if |base| < 6 then |base| else 6]);
    assert s + [TILDE, ONE] + [DOT] == s + [126, 49, 46];
    if |ext| < 3 {
      CopiesExtension(ext, 0, 3, s + [126, 49, 46]);
      assert ext[0..] == ext[..|ext|];
    } else {
      CutsExtension(ext, 0, 3, s + [126, 49, 46]);
      assert ext[0..0 + 3] == ext[..3];
    }
  }

  /** Characters of a name that went through `doschar` stay as they are the second time. */
  lemma UpperAgain(s: seq<Byte>)
    requires AllPlain(s)
    ensures AllPlain(Upper(s)) && Upper(Upper(s)) == Upper(s)
  {
    forall i | 0 <= i < |s| ensures Plain(Upper(s)[i]) && Upper(Upper(s))[i] == Upper(s)[i] {
      PlainFacts(s[i]);
    }
  }

  /** The bytes of a path that start with plain capitals. */
  predicate StartsWith(t: seq<Byte>, base: seq<Byte>) {
    |base| < |t| && forall i | 0 <= i < |base| :: t[i] == base[i] && Plain(base[i]) && DosChar(base[i]) == base[i]
  }

  /** The scan copies the base, one character ahead of what it has stored. */
  lemma {:induction false} ScansBase(name: seq<Byte>, t: seq<Byte>, base: seq<Byte>, i: nat)
    requires |name| == 11 && CString(t) && StartsWith(t, base) && i <= |base| <= 8
    requires name[..i] == base[..i]
    ensures ReadFrom(t, DosChar(t[i]), i + 1) && ReadFrom(t, DosChar(t[|base|]), |base| + 1)
    ensures ScanBase(name, t, i, DosChar(t[i]), i + 1)
         == ScanBase(base + name[|base|..], t, |base|, DosChar(t[|base|]), |base| + 1)
    decreases |base| - i
  {
    hide DosChar;
    NextRead(t, i);
    NextRead(t, |base|);
    if i < |base| {
      NextRead(t, i + 1);
      assert t[i] == base[i];
      assert name[i := base[i]][..i + 1] == base[..i + 1];
      ScansBase(name[i := base[i]], t, base, i + 1);
      assert name[i := base[i]][|base|..] == name[|base|..];
    } else {
      assert name == base + name[|base|..];
    }
  }

  function Spaces(n: nat): (r: seq<Byte>)
    ensures |r| == n && forall i | 0 <= i < n :: r[i] == SPACE
  {
    seq(n, k => SPACE)
  }

  /** After the base the rest of the eight bytes is padded: at the end of the path, or from byte 2 on
      at a dot, which stays in hand. */
  lemma {:induction false} ScansPadding(name: seq<Byte>, t: seq<Byte>, i: nat, c: Byte, p: nat)
    requires |name| == 11 && i <= 8 && ReadFrom(t, c, p) && (EndsName(c) || (c == DOT && i >= 2))
    ensures ScanBase(name, t, i, c, p) == Scanned(name[..i] + Spaces(8 - i) + name[8..], c, p)
    decreases 8 - i
  {
    if i < 8 {
      var n := name[i := SPACE];
      if !EndsName(c) {
        NextRead(t, p);
      }
      ScansPadding(n, t, i + 1, c, p);
      assert n[..i + 1] + Spaces(7 - i) == name[..i] + Spaces(8 - i);
    } else {
      assert name == name[..8] + Spaces(0) + name[8..];
    }
  }

  /** Spaces where no extension follows, or where the path ends. */
  lemma {:induction false} ScansBlank(name: seq<Byte>, t: seq<Byte>, i: nat, follows: bool, c: Byte, p: nat)
    requires |name| == 11 && i <= 3 && ReadFrom(t, c, p) && EndsName(c)
    ensures ScanExtension(name, t, i, follows, c, p) == Scanned(name[..8 + i] + Spaces(3 - i), c, p)
    decreases 3 - i
  {
    if i < 3 {
      var n := name[8 + i := SPACE];
      ScansBlank(n, t, i + 1, follows, c, p);
      assert n[..8 + i + 1] + Spaces(2 - i) == name[..8 + i] + Spaces(3 - i);
    } else {
      assert name == name[..11] + Spaces(0);
    }
  }

  /** The scan of an extension that ends the path. */
  lemma {:induction false} ScansExtension(name: seq<Byte>, t: seq<Byte>, s: nat, ext: seq<Byte>, i: nat)
    requires |name| == 11 && CString(t) && i <= |ext| <= 3 && s + |ext| + 1 == |t| && t[s..] == ext + [0]
    requires AllPlain(ext) && Upper(ext) == ext && name[8..8 + i] == ext[..i]
    ensures ReadFrom(t, DosChar(t[s + i]), s + i + 1)
    ensures ScanExtension(name, t, i, true, DosChar(t[s + i]), s + i + 1)
         == Scanned(name[..8] + ext + Spaces(3 - |ext|), 0, |t|)
    decreases |ext| - i
  {
    hide DosChar;
    DosEnds();
    NextRead(t, s + i);
    assert t[s + i] == t[s..][i];
    if i < |ext| {
      NextRead(t, s + i + 1);
      assert Plain(ext[i]) && Upper(ext)[i] == ext[i];
      var n := name[8 + i := ext[i]];
      assert n[8..8 + i + 1] == name[8..8 + i] + [ext[i]];
      ScansExtension(n, t, s, ext, i + 1);
      assert n[..8] == name[..8];
    } else {
      ScansBlank(name, t, i, true, 0, s + i + 1);
      assert name[..8 + i] == name[..8] + ext;
    }
  }

  /** A path as `str_to_fatname` hands it on. */
  function PathOf(base: seq<Byte>, ext: seq<Byte>): seq<Byte> {
    (if ext == [] then base + (if |base| == 8 then [DOT] else []) else Written(base, ext)) + [0]
  }

  /** Plain and in capitals. */
  predicate Capital(s: seq<Byte>) { AllPlain(s) && Upper(s) == s }

  lemma PathFacts(base: seq<Byte>, ext: seq<Byte>)
    requires Capital(base) && Capital(ext) && 1 <= |base| <= 8 && |ext| <= 3
    ensures CString(PathOf(base, ext)) && StartsWith(PathOf(base, ext), base) && |base| < |PathOf(base, ext)|
    ensures PathOf(base, ext)[|base|] == if ext == [] && |base| < 8 then 0 else DOT
    ensures ext != [] || |base| == 8 ==> |PathOf(base, ext)| == |base| + |ext| + 2 && PathOf(base, ext)[|base| + 1..] == ext + [0]
  {
    hide DosChar;
    NoDots(base);
    NoDots(ext);
    forall i | 0 <= i < |base| ensures Plain(base[i]) && DosChar(base[i]) == base[i] {
      assert Upper(base)[i] == base[i];
    }
  }

  /** The base's eight bytes, and where the scan stands behind them. */
  lemma ScannedBase(buf: seq<Byte>, base: seq<Byte>, ext: seq<Byte>)
    requires |buf| == 11 && Capital(base) && Capital(ext) && 1 <= |base| <= 8 && |ext| <= 3
    ensures CString(PathOf(base, ext)) && ReadFrom(PathOf(base, ext), DosChar(PathOf(base, ext)[0]), 1)
    ensures var t := PathOf(base, ext);
            ScanBase(buf, t, 0, DosChar(t[0]), 1)
            == Scanned(Padded(base, ext, buf[1])[..8] + buf[8..], if ext == [] && |base| < 8 then 0 else DOT, |base| + 1)
  {
    hide *;
    PathFacts(base, ext);
    var t := PathOf(base, ext);
    Spliced(base, buf);
    PaddedHead(base, ext, buf[1]);
    ScansHead(buf, t, base);
    var n := base + buf[|base|..];
    if |base| == 1 && ext != [] {
      SkipsGap(n, t, base, ext);
      assert n[1] == buf[1];
    } else {
      PadsHead(n, t, base);
    }
  }

  lemma ScansHead(buf: seq<Byte>, t: seq<Byte>, base: seq<Byte>)
    requires |buf| == 11 && CString(t) && StartsWith(t, base) && 1 <= |base| <= 8
    requires t[|base|] == 0 || t[|base|] == DOT
    ensures ReadFrom(t, DosChar(t[0]), 1) && ReadFrom(t, t[|base|], |base| + 1)
    ensures ScanBase(buf, t, 0, DosChar(t[0]), 1) == ScanBase(base + buf[|base|..], t, |base|, t[|base|], |base| + 1)
  {
    hide DosChar, ScanBase;
    DosEnds();
    assert buf[..0] == base[..0];
    ScansBase(buf, t, base, 0);
  }

  lemma PadsHead(n: seq<Byte>, t: seq<Byte>, base: seq<Byte>)
    requires |n| == 11 && CString(t) && 1 <= |base| <= 8 && |base| < |t| && n[..|base|] == base
    requires t[|base|] == 0 || (t[|base|] == DOT && |base| >= 2)
    ensures ReadFrom(t, t[|base|], |base| + 1)
    ensures ScanBase(n, t, |base|, t[|base|], |base| + 1)
         == Scanned(base + Spaces(8 - |base|) + n[8..], t[|base|], |base| + 1)
  {
    hide ScanBase, Spaces;
    ScansPadding(n, t, |base|, t[|base|], |base| + 1);
  }

  lemma Spliced(base: seq<Byte>, buf: seq<Byte>)
    requires |buf| == 11 && 1 <= |base| <= 8
    ensures var n := base + buf[|base|..];
            |n| == 11 && n[..|base|] == base && n[8..] == buf[8..] && (|base| == 1 ==> n[1] == buf[1])
  {
  }

  lemma PaddedHead(base: seq<Byte>, ext: seq<Byte>, gap: Byte)
    requires 1 <= |base| <= 8 && |ext| <= 3
    ensures Padded(base, ext, gap)[..8]
         == if |base| == 1 && ext != [] then base + [gap] + Spaces(6) else base + Spaces(8 - |base|)
  {
    PaddedTail(base, ext, gap);
    hide Padded;
    SpacesJoin(8 - |base|);
  }

  lemma SpacesJoin(n: nat)
    ensures n > 0 ==> Spaces(1) + Spaces(n - 1) == Spaces(n)
    ensures Spaces(0) == []
  {
  }

  /** Behind a base of one character the scan leaves byte 1 alone. */
  lemma SkipsGap(n: seq<Byte>, t: seq<Byte>, base: seq<Byte>, ext: seq<Byte>)
    requires |n| == 11 && CString(t) && |base| == 1 && ext != [] && Capital(ext) && n[..1] == base
    requires |t| == |ext| + 3 && t[1] == DOT && t[2..] == ext + [0]
    ensures ReadFrom(t, DOT, 2)
    ensures ScanBase(n, t, 1, DOT, 2) == Scanned(base + [n[1]] + Spaces(6) + n[8..], DOT, 2)
  {
    hide DosChar, Upper;
    NextRead(t, 2);
    assert t[2] == t[2..][0] == ext[0];
    assert Plain(ext[0]);
    ScansPadding(n, t, 2, DOT, 2);
    assert n[..2] == base + [n[1]];
  }

  /** `make_dos_name` of such a path: the padded name, the pointer on the end of the path. */
  lemma DosNameOf(buf: seq<Byte>, base: seq<Byte>, ext: seq<Byte>)
    requires |buf| == 11 && Capital(base) && Capital(ext) && 1 <= |base| <= 8 && |ext| <= 3
    ensures CString(PathOf(base, ext))
    ensures DosName(buf, PathOf(base, ext), 0) == Some((Padded(base, ext, buf[1]), |PathOf(base, ext)| - 1))
  {
    hide DosChar, Upper, Padded, ScanBase, ScanExtension;
    ScannedBase(buf, base, ext);
    PathFacts(base, ext);
    DosEnds();
    var t, pad := PathOf(base, ext), Padded(base, ext, buf[1]);
    var n := pad[..8] + buf[8..];
    PaddedTail(base, ext, buf[1]);
    if ext == [] && |base| < 8 {
      NextRead(t, |base|);
      ScansBlank(n, t, 0, false, 0, |base| + 1);
      assert n[..8] + Spaces(3) == pad;
    } else {
      NextRead(t, |base| + 1);
      assert n[8..8] == ext[..0];
      ScansExtension(n, t, |base| + 1, ext, 0);
      assert n[..8] + ext + Spaces(3 - |ext|) == pad;
    }
  }

  /** A base of nine characters loses its ninth without a word; a longer one is refused. */
  lemma NinthDropped(buf: seq<Byte>, base: seq<Byte>, ext: seq<Byte>)
    requires |buf| == 11 && Capital(base) && Capital(ext) && |base| >= 9 && |ext| <= 3
    ensures CString(Written(base, ext) + [0])
    ensures |base| == 9 ==>
              DosName(buf, Written(base, ext) + [0], 0)
              == Some((base[..8] + ext + Spaces(3 - |ext|), |Written(base, ext) + [0]| - 1))
    ensures |base| > 9 ==> DosName(buf, Written(base, ext) + [0], 0) == None
  {
    hide DosChar, Upper, ScanBase, ScanExtension, Plain;
    var t, n := Written(base, ext) + [0], base[..8] + buf[8..];
    WrittenString(base, ext);
    DosEnds();
    forall i | 0 <= i < |base| ensures Plain(base[i]) && DosChar(base[i]) == base[i] {
      assert Upper(base)[i] == base[i];
    }
    EightScanned(buf, t, base[..8]);
    assert t[8] == base[8];
    PlainGoesOn(base[8]);
    if |base| > 9 {
      assert t[9] == base[9];
      PlainGoesOn(base[9]);
    } else if ext == [] {
      ScansBlank(n, t, 0, false, 0, 10);
      assert n[..8] + Spaces(3) == base[..8] + ext + Spaces(3);
    } else {
      assert t[10..] == ext + [0];
      assert n[8..8] == ext[..0];
      ScansExtension(n, t, 10, ext, 0);
    }
  }

  lemma PlainGoesOn(c: Byte)
    requires Plain(c) && DosChar(c) == c
    ensures c != 0 && c != 1 && c != DOT && c != SLASH
  {
  }

  lemma EightScanned(buf: seq<Byte>, t: seq<Byte>, base: seq<Byte>)
    requires |buf| == 11 && CString(t) && StartsWith(t, base) && |base| == 8
    ensures ReadFrom(t, DosChar(t[0]), 1)
    ensures ScanBase(buf, t, 0, DosChar(t[0]), 1) == Scanned(base + buf[8..], DosChar(t[8]), 9)
  {
    hide DosChar;
    assert buf[..0] == base[..0];
    ScansBase(buf, t, base, 0);
  }

  /** The first i bytes but byte 1 are no end of a name, and nothing illegal. */
  predicate Front(name: seq<Byte>, i: nat) {
    i <= |name| && forall j | 0 <= j < i && j != 1 :: name[j] !in {0, 1, 47}
  }

  lemma FrontAdd(name: seq<Byte>, i: nat, b: Byte)
    requires Front(name, i) && i < |name| && b != 0 && b != 1 && b != 47
    ensures Front(name[i := b], i + 1)
  {
  }

  /** A scan from place p read on to place q, over no end of the name, with c in hand. */
  predicate WentOn(t: seq<Byte>, p: nat, q: nat, c: Byte) {
    0 < p <= q <= |t| && c == DosChar(t[q - 1]) && forall k | p - 1 <= k < q - 1 :: t[k] !in {0, 47, 92}
  }

  lemma WentOne(t: seq<Byte>, p: nat, q: nat, c: Byte)
    requires WentOn(t, p + 1, q, c) && p > 0 && !EndsName(DosChar(t[p - 1]))
    ensures WentOn(t, p, q, c)
  {
    EndsAre(t[p - 1]);
    hide DosChar;
  }

  lemma EndsAre(c: Byte)
    ensures EndsName(DosChar(c)) <==> c in {0, 47, 92}
  {
  }

  lemma WentNowhere(t: seq<Byte>, p: nat)
    requires 0 < p <= |t|
    ensures WentOn(t, p, p, DosChar(t[p - 1]))
  {
  }

  lemma {:induction false} BaseKept(name: seq<Byte>, t: seq<Byte>, i: nat, p: nat)
    requires |name| == 11 && i <= 8 && CString(t) && 0 < p <= |t| && Front(name, i)
    ensures ReadFrom(t, DosChar(t[p - 1]), p)
    ensures var r := ScanBase(name, t, i, DosChar(t[p - 1]), p);
            r.Scanned? ==> WentOn(t, p, r.p, r.c) && Front(r.name, 8)
    decreases 8 - i
  {
    hide DosChar, WentOn, Front;
    NextRead(t, p - 1);
    WentNowhere(t, p);
    var c := DosChar(t[p - 1]);
    if i < 8 {
      var r := ScanBase(name, t, i, c, p);
      if EndsName(c) {
        FrontAdd(name, i, SPACE);
        BaseKept(name[i := SPACE], t, i + 1, p);
      } else {
        NextRead(t, p);
        if c != DOT && c != 1 {
          FrontAdd(name, i, c);
          BaseKept(name[i := c], t, i + 1, p + 1);
          if r.Scanned? {
            WentOne(t, p, r.p, r.c);
          }
        } else if c == DOT {
          DotKept(name, t, i, p);
        }
      }
    }
  }

  lemma DotKept(name: seq<Byte>, t: seq<Byte>, i: nat, p: nat)
    requires |name| == 11 && i < 8 && CString(t) && 0 < p < |t| && Front(name, i) && DosChar(t[p - 1]) == DOT
    ensures ReadFrom(t, DOT, p)
    ensures var r := ScanBase(name, t, i, DOT, p);
            r.Scanned? ==> WentOn(t, p, r.p, r.c) && Front(r.name, 8)
    decreases 8 - i, 0
  {
    hide DosChar, WentOn, Front;
    NextRead(t, p);
    var r := ScanBase(name, t, i, DOT, p);
    if i == 0 {
      FrontAdd(name, 0, DOT);
      BaseKept(name[0 := DOT], t, 1, p + 1);
      if r.Scanned? {
        WentOne(t, p, r.p, r.c);
      }
    } else if i == 1 {
      if EndsName(DosChar(t[p])) {
        FrontAdd(name, 1, DOT);
        BaseKept(name[1 := DOT], t, 2, p + 1);
        if r.Scanned? {
          WentOne(t, p, r.p, r.c);
        }
      } else {
        FrontGap(name);
        BaseKept(name, t, 2, p);
      }
    } else {
      FrontAdd(name, i, SPACE);
      BaseKept(name[i := SPACE], t, i + 1, p);
    }
  }

  lemma FrontGap(name: seq<Byte>)
    requires Front(name, 1) && |name| == 11
    ensures Front(name, 2)
  {
  }

  lemma {:induction false} ExtensionKept(name: seq<Byte>, t: seq<Byte>, i: nat, follows: bool, p: nat)
    requires |name| == 11 && i <= 3 && CString(t) && 0 < p <= |t| && Front(name, 8 + i)
    ensures ReadFrom(t, DosChar(t[p - 1]), p)
    ensures var r := ScanExtension(name, t, i, follows, DosChar(t[p - 1]), p);
            r.Scanned? ==> WentOn(t, p, r.p, r.c) && Front(r.name, 11)
    decreases 3 - i
  {
    hide DosChar, WentOn, Front;
    NextRead(t, p - 1);
    WentNowhere(t, p);
    var c := DosChar(t[p - 1]);
    if i < 3 {
      var r := ScanExtension(name, t, i, follows, c, p);
      if !follows || EndsName(c) {
        FrontAdd(name, 8 + i, SPACE);
        ExtensionKept(name[8 + i := SPACE], t, i + 1, follows, p);
      } else if c != 1 && c != DOT {
        NextRead(t, p);
        FrontAdd(name, 8 + i, c);
        ExtensionKept(name[8 + i := c], t, i + 1, follows, p + 1);
        if r.Scanned? {
          WentOne(t, p, r.p, r.c);
        }
      }
    }
  }

  /** Whatever the path, an accepted name ends at its first end or slash, where the path pointer is left, and
      has nothing illegal in its bytes, byte 1 apart. */
  lemma AcceptedIsWhole(buf: seq<Byte>, t: seq<Byte>, p: nat)
    requires |buf| == 11 && CString(t) && p < |t|
    ensures var d := DosName(buf, t, p);
            d.Some? ==>
              var (name, q) := d.value;
              && p <= q < |t| && t[q] in {0, 47, 92} && (forall k | p <= k < q :: t[k] !in {0, 47, 92})
              && |name| == 11 && forall j | 0 <= j < 11 && j != 1 :: name[j] !in {0, 1, 47}
  {
    hide DosChar, ScanBase, ScanExtension, WentOn, Finish, CString;
    NextRead(t, p);
    BaseKept(buf, t, 0, p + 1);
    var s := ScanBase(buf, t, 0, DosChar(t[p]), p + 1);
    if s.Scanned? {
      ReadHand(t, p + 1, s.p, s.c);
      if EndsName(s.c) {
        Finished(s.name, t, p, s.p, false);
      } else {
        NextRead(t, s.p);
        WentFurther(t, p + 1, s.p, s.c);
        var d := DosChar(t[s.p]);
        if s.c == DOT {
          Finished(s.name, t, p, s.p + 1, true);
        } else if EndsName(d) {
          Finished(s.name, t, p, s.p + 1, false);
        } else if d == DOT {
          NextRead(t, s.p + 1);
          WentFurther(t, p + 1, s.p + 1, d);
          Finished(s.name, t, p, s.p + 2, true);
        }
      }
    }
  }

  lemma ReadHand(t: seq<Byte>, p: nat, q: nat, c: Byte)
    requires WentOn(t, p, q, c)
    ensures 0 < p <= q <= |t| && c == DosChar(t[q - 1])
  {
  }

  lemma WentFurther(t: seq<Byte>, p: nat, q: nat, c: Byte)
    requires WentOn(t, p, q, c) && !EndsName(c) && q < |t|
    ensures WentOn(t, p, q + 1, DosChar(t[q]))
  {
    EndsAre(t[q - 1]);
    hide DosChar;
  }

  /** The scan of the extension behind a scan that reached place q from place p. */
  lemma Finished(name: seq<Byte>, t: seq<Byte>, p: nat, q: nat, follows: bool)
    requires |name| == 11 && CString(t) && Front(name, 8) && 0 < q <= |t| && WentOn(t, p + 1, q, DosChar(t[q - 1]))
    ensures ReadFrom(t, DosChar(t[q - 1]), q)
    ensures var f := Finish(t, ScanExtension(name, t, 0, follows, DosChar(t[q - 1]), q));
            f.Some? ==>
              && p <= f.value.1 < |t| && t[f.value.1] in {0, 47, 92}
              && (forall k | p <= k < f.value.1 :: t[k] !in {0, 47, 92})
              && |f.value.0| == 11 && forall j | 0 <= j < 11 && j != 1 :: f.value.0[j] !in {0, 1, 47}
  {
    hide DosChar, ScanExtension, CString;
    NextRead(t, q - 1);
    ExtensionKept(name, t, 0, follows, q);
    var r := ScanExtension(name, t, 0, follows, DosChar(t[q - 1]), q);
    if r.Scanned? {
      EndsAre(t[r.p - 1]);
    }
  }

  lemma PaddedTail(base: seq<Byte>, ext: seq<Byte>, gap: Byte)
    requires 1 <= |base| <= 8 && |ext| <= 3
    ensures Padded(base, ext, gap)[8..] == ext + Spaces(3 - |ext|)
    ensures Padded(base, ext, gap)[..8]
         == base + (if |base| == 1 && ext != [] then [gap] else Spaces(if |base| < 8 then 1 else 0))
            + Spaces(if |base| < 8 then 7 - |base| else 0)
  {
  }

  lemma {:induction false} UnpaddedAppend(a: seq<Byte>, b: seq<Byte>)
    ensures Unpadded(a + b) == Unpadded(a) + Unpadded(b)
    decreases |b|
  {
    if b == [] {
      assert a + b == a;
    } else {
      assert (a + b)[..|a + b| - 1] == a + b[..|b| - 1];
      UnpaddedAppend(a, b[..|b| - 1]);
    }
  }

  lemma {:induction false} UnpaddedSpaces(n: nat)
    ensures Unpadded(Spaces(n)) == []
  {
    if n > 0 {
      assert Spaces(n)[..n - 1] == Spaces(n - 1);
      UnpaddedSpaces(n - 1);
    }
  }

  lemma {:induction false} UnpaddedPlain(s: seq<Byte>)
    requires AllPlain(s)
    ensures Unpadded(s) == s
  {
    if s != [] {
      assert Plain(s[|s| - 1]);
      UnpaddedPlain(s[..|s| - 1]);
    }
  }

  lemma {:induction false} UntilSpacePlain(s: seq<Byte>, n: nat)
    requires AllPlain(s)
    ensures UntilSpace(s + Spaces(n)) == s
  {
    if s != [] {
      assert Plain(s[0]);
      assert (s + Spaces(n))[1..] == s[1..] + Spaces(n);
      UntilSpacePlain(s[1..], n);
    } else {
      assert s + Spaces(n) == Spaces(n);
    }
  }

  /** The two names of dots, padded: a directory itself and its parent. */
  lemma DotNames(buf: seq<Byte>)
    requires |buf| == 11
    ensures DosName(buf, [46, 0], 0) == Some(([46] + Spaces(10), 1))
    ensures DosName(buf, [46, 46, 0], 0) == Some(([46, 46] + Spaces(9), 2))
  {
    var one, two := buf[0 := DOT], buf[0 := DOT][1 := DOT];
    ScansBlankBase(one, [46, 0], 1, 2);
    ScansBlankBase(two, [46, 46, 0], 2, 3);
    var a, b := [46] + Spaces(7) + buf[8..], [46, 46] + Spaces(6) + buf[8..];
    assert one[..1] + Spaces(7) + one[8..] == a;
    assert two[..2] + Spaces(6) + two[8..] == b;
    ScansBlank(a, [46, 0], 0, false, 0, 2);
    ScansBlank(b, [46, 46, 0], 0, false, 0, 3);
    assert a[..8] + Spaces(3) == [46] + Spaces(10);
    assert b[..8] + Spaces(3) == [46, 46] + Spaces(9);
  }

  /** Once the path has ended, the rest of the eight bytes is blank. */
  lemma {:induction false} ScansBlankBase(name: seq<Byte>, t: seq<Byte>, i: nat, p: nat)
    requires |name| == 11 && CString(t) && 0 < p <= |t| && i <= 8
    ensures ScanBase(name, t, i, 0, p) == Scanned(name[..i] + Spaces(8 - i) + name[8..], 0, p)
    decreases 8 - i
  {
    if i < 8 {
      ScansBlankBase(name[i := SPACE], t, i + 1, p);
      assert name[i := SPACE][..i + 1] + Spaces(7 - i) + name[i := SPACE][8..] == name[..i] + Spaces(8 - i) + name[8..];
    } else {
      assert name[..8] + Spaces(0) + name[8..] == name;
    }
  }

  /** What `fatname_to_str` makes of a padded name. */
  lemma NameStringOf(base: seq<Byte>, ext: seq<Byte>, gap: Byte)
    requires AllPlain(base) && AllPlain(ext) && 1 <= |base| <= 8 && |ext| <= 3
    ensures NameString(Padded(base, ext, gap))
         == Written(base + (if |base| == 1 && ext != [] && gap != SPACE then [gap] else []), ext)
  {
    hide Padded, Plain, Unpadded, UntilSpace;
    var pad := Padded(base, ext, gap);
    PaddedTail(base, ext, gap);
    UnpaddedBase(base, ext, gap);
    UntilSpacePlain(ext, 3 - |ext|);
    assert pad[8] == pad[8..][0];
    if ext != [] {
      NotSpace(ext);
    }
  }

  lemma UnpaddedBase(base: seq<Byte>, ext: seq<Byte>, gap: Byte)
    requires AllPlain(base) && 1 <= |base| <= 8 && |ext| <= 3
    ensures Unpadded(Padded(base, ext, gap)[..8])
         == base + (if |base| == 1 && ext != [] && gap != SPACE then [gap] else [])
  {
    hide Padded, Plain, Unpadded;
    PaddedTail(base, ext, gap);
    var middle := if |base| == 1 && ext != [] then [gap] else Spaces(if |base| < 8 then 1 else 0);
    var rest := Spaces(if |base| < 8 then 7 - |base| else 0);
    UnpaddedAppend(base + middle, rest);
    UnpaddedAppend(base, middle);
    UnpaddedPlain(base);
    UnpaddedSpaces(|rest|);
    UnpaddedSpaces(if |base| < 8 then 1 else 0);
    UnpaddedOne(gap);
    assert base + Unpadded(middle) + [] == base + Unpadded(middle);
  }

  lemma UnpaddedOne(gap: Byte)
    ensures Unpadded([gap]) == if gap == SPACE then [] else [gap]
  {
  }

  lemma NotSpace(s: seq<Byte>)
    requires AllPlain(s) && s != []
    ensures s[0] != SPACE
  {
    assert Plain(s[0]);
  }

  /** The round trip: a plain 8.3 name comes back in capitals, exactly if its base has two characters
      or more, or there is no extension, or byte 1 of the buffer happened to be a space. */
  lemma NamesRoundTrip(base: seq<Byte>, ext: seq<Byte>, buf: seq<Byte>)
    requires AllPlain(base) && AllPlain(ext) && 1 <= |base| <= 8 && |ext| <= 3 && |buf| == 11
    ensures CString(Written(base, ext) + [0])
    ensures var s := FatString(Written(base, ext) + [0]);
            && s.Some? && CString(s.value + [0])
            && var d := DosName(buf, s.value + [0], 0);
               && d.Some? && |d.value.0| == 11 && d.value.1 == |s.value|
               && (NameString(d.value.0) == Written(Upper(base), Upper(ext))
                   <==> |base| >= 2 || ext == [] || buf[1] == SPACE)
  {
    hide DosChar, Plain, Upper, Padded, NameString, DosName, FatString;
    FatStringOf(base, ext);
    UpperAgain(base);
    UpperAgain(ext);
    var b, e := Upper(base), Upper(ext);
    assert |e| == |ext| && |b| == |base|;
    assert FatString(Written(base, ext) + [0]).value + [0] == PathOf(b, e);
    DosNameOf(buf, b, e);
    NameStringOf(b, e, buf[1]);
    assert b + [] == b;
    assert |b + [buf[1]]| == |b| + 1;
  }
}
