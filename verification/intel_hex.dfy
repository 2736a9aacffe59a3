/**
 `hexToBin`: Intel HEX text to one contiguous image. Lines are split on
 line feeds, trimmed, and every line that starts with ':' and has at least
 11 characters is read as a record: data records (type 00) place bytes at
 `(linear << 16) + (segment << 4) + address + i`, type 02 and 04 records
 set the segment and linear extension, every other type is ignored. The
 image spans the lowest to the highest address written, gaps filled with
 0xFF.

 The source computes `linear << 16` with JavaScript's 32-bit signed shift,
 so a linear extension of 0x8000 or more gives a negative base, and it
 starts its running maximum at 0. `Mode` selects between that arithmetic
 (`AsWritten`) and the unsigned arithmetic the format means (`Intended`).
 */
module IntelHex {
  import opened Bytes
  import opened Results
  import opened Chunking

  // ---------------------------------------------------------------------
  // Lines: `split("\n")`
  // ---------------------------------------------------------------------

  /** The first line feed in `s`. */
  function FirstNewline(s: string): (i: nat)
    requires '\n' in s
    ensures i < |s| && s[i] == '\n' && '\n' !in s[..i]
  {
    if s[0] == '\n' then 0 else 1 + FirstNewline(s[1..])
  }

  /** The lines put back together with a line feed between neighbours. */
  function JoinLines(lines: seq<string>): string
    requires |lines| > 0
  {
    if |lines| == 1 then lines[0] else lines[0] + "\n" + JoinLines(lines[1..])
  }

  /**
   `text.split("\n")`: always at least one line (the empty text is one empty
   line), none containing a line feed, and joining them gives the text back.
   */
  function SplitLines(s: string): (lines: seq<string>)
    ensures |lines| > 0
    ensures forall i :: 0 <= i < |lines| ==> '\n' !in lines[i]
    ensures JoinLines(lines) == s
    decreases |s|
  {
    if '\n' !in s then [s]
    else
      var i := FirstNewline(s);
      var rest := SplitLines(s[i + 1..]);
      assert s == s[..i] + "\n" + s[i + 1..];
      [s[..i]] + rest
  }

  /** Splitting a joined list of lines without line feeds gives the list back. */
  lemma {:induction false} SplitJoin(lines: seq<string>)
    requires |lines| > 0
    requires forall i :: 0 <= i < |lines| ==> '\n' !in lines[i]
    ensures SplitLines(JoinLines(lines)) == lines
  {
    if |lines| > 1 {
      var s := JoinLines(lines);
      var n := |lines[0]|;
      assert s[n] == '\n';
      assert s[..n] == lines[0];
      var i := FirstNewline(s);
      assert s[i + 1..] == JoinLines(lines[1..]);
      SplitJoin(lines[1..]);
    }
  }

  // ---------------------------------------------------------------------
  // Trimming: `String.prototype.trim`
  // ---------------------------------------------------------------------

  /** The white space and line terminators `trim` removes. */
  predicate IsSpace(c: char)
  {
    c == '\t' || c == '\n' || c == '\U{000B}' || c == '\U{000C}' || c == '\r' || c == ' '
    || c == '\U{00A0}' || c == '\U{1680}' || ('\U{2000}' <= c <= '\U{200A}')
    || c == '\U{2028}' || c == '\U{2029}' || c == '\U{202F}' || c == '\U{205F}'
    || c == '\U{3000}' || c == '\U{FEFF}'
  }

  /** Every character of `s[from..to]` is white space. */
  predicate Blank(s: string, from: nat, to: nat)
    requires from <= to <= |s|
  {
    forall k :: from <= k < to ==> IsSpace(s[k])
  }

  /** `s` with its leading white space removed. */
  function TrimStart(s: string): (r: string)
    ensures |r| <= |s| && r == s[|s| - |r|..]
    ensures Blank(s, 0, |s| - |r|)
    ensures |r| > 0 ==> !IsSpace(r[0])
  {
    if |s| > 0 && IsSpace(s[0]) then TrimStart(s[1..]) else s
  }

  /** `s` with its trailing white space removed. */
  function TrimEnd(s: string): (r: string)
    ensures |r| <= |s| && r == s[..|r|]
    ensures Blank(s, |r|, |s|)
    ensures |r| > 0 ==> !IsSpace(r[|r| - 1])
  {
    if |s| > 0 && IsSpace(s[|s| - 1]) then TrimEnd(s[..|s| - 1]) else s
  }

  /** How many characters `trim` removes from the front. */
  function Lead(s: string): nat
  {
    |s| - |TrimStart(s)|
  }

  /**
   `s.trim()`: the slice of `s` left after removing white space at both
   ends; what it removed is all white space, and what it keeps neither
   starts nor ends with white space.
   */
  function Trim(s: string): (r: string)
    ensures Lead(s) + |r| <= |s| && r == s[Lead(s)..Lead(s) + |r|]
    ensures Blank(s, 0, Lead(s))
    ensures Blank(s, Lead(s) + |r|, |s|)
    ensures |r| > 0 ==> !IsSpace(r[0]) && !IsSpace(r[|r| - 1])
  {
    var t := TrimStart(s);
    var r := TrimEnd(t);
    TrimTail(s, Lead(s), t, r);
    r
  }

  /** The end-trim of the suffix `s[n..]`, seen as a slice of `s` itself. */
  lemma TrimTail(s: string, n: nat, t: string, r: string)
    requires n <= |s| && t == s[n..]
    requires |r| <= |t| && r == t[..|r|]
    requires Blank(t, |r|, |t|)
    ensures n + |r| <= |s| && r == s[n..n + |r|]
    ensures Blank(s, n + |r|, |s|)
    ensures |r| > 0 ==> r[0] == t[0]
  {
    forall k | n + |r| <= k < |s|
      ensures IsSpace(s[k])
    {
      assert s[k] == t[k - n];
    }
  }

  /** A text is left alone by `trim` exactly when it has no white space at either end. */
  lemma TrimFixed(s: string)
    ensures Trim(s) == s <==> (|s| == 0 || (!IsSpace(s[0]) && !IsSpace(s[|s| - 1])))
  {
    if |s| > 0 && !IsSpace(s[0]) && !IsSpace(s[|s| - 1]) {
      assert TrimStart(s) == s;
      assert TrimEnd(s) == s;
    }
  }

  // ---------------------------------------------------------------------
  // Hexadecimal fields: `parseInt(field, 16)`
  // ---------------------------------------------------------------------

  predicate IsHexDigit(c: char)
  {
    ('0' <= c <= '9') || ('a' <= c <= 'f') || ('A' <= c <= 'F')
  }

  /** Every character of `t[from..to]` is a hex digit. */
  predicate HexIn(t: string, from: nat, to: nat)
  {
    from <= to <= |t| && forall k :: from <= k < to ==> IsHexDigit(t[k])
  }

  function HexVal(c: char): (v: nat)
    requires IsHexDigit(c)
    ensures v < 16
  {
    if '0' <= c <= '9' then c as int - '0' as int
    else if 'a' <= c <= 'f' then c as int - 'a' as int + 10
    else c as int - 'A' as int + 10
  }

  function Pow16(n: nat): (r: nat)
    ensures r > 0
  {
    if n == 0 then 1 else 16 * Pow16(n - 1)
  }

  /** The value of a run of hex digits, most significant first, in either case. */
  function ParseHex(s: string): (v: nat)
    requires HexIn(s, 0, |s|)
    ensures v < Pow16(|s|)
  {
    if |s| == 0 then 0
    else
      assert HexIn(s[..|s| - 1], 0, |s| - 1);
      ParseHex(s[..|s| - 1]) * 16 + HexVal(s[|s| - 1])
  }

  /** Digits written after others shift those by one hex place each. */
  lemma {:induction false} ParseHexAppend(s: string, t: string)
    requires HexIn(s, 0, |s|) && HexIn(t, 0, |t|)
    ensures HexIn(s + t, 0, |s + t|)
    ensures ParseHex(s + t) == ParseHex(s) * Pow16(|t|) + ParseHex(t)
  {
    var st := s + t;
    assert HexIn(st, 0, |st|);
    if |t| > 0 {
      var t' := t[..|t| - 1];
      assert st[..|st| - 1] == s + t';
      assert st[|st| - 1] == t[|t| - 1];
      assert HexIn(t', 0, |t'|);
      ParseHexAppend(s, t');
      var d := HexVal(t[|t| - 1]);
      assert ParseHex(st) == ParseHex(s + t') * 16 + d;
      assert ParseHex(t) == ParseHex(t') * 16 + d;
      assert Pow16(|t|) == 16 * Pow16(|t'|);
      ShiftPlace(ParseHex(s), Pow16(|t'|), ParseHex(t'), d);
      calc {
        ParseHex(st);
        ParseHex(s + t') * 16 + d;
        (ParseHex(s) * Pow16(|t'|) + ParseHex(t')) * 16 + d;
        ParseHex(s) * (16 * Pow16(|t'|)) + (ParseHex(t') * 16 + d);
        ParseHex(s) * Pow16(|t|) + ParseHex(t);
      }
    } else {
      assert st == s;
    }
  }

  lemma ShiftPlace(a: int, b: int, c: int, d: int)
    ensures (a * b + c) * 16 + d == a * (16 * b) + (c * 16 + d)
  {
    calc {
      (a * b + c) * 16 + d;
      (a * b) * 16 + c * 16 + d;
      { assert (a * b) * 16 == a * (16 * b); }
      a * (16 * b) + (c * 16 + d);
    }
  }

  /** `parseInt(t.substr(at, width), 16)` for a field of hex digits. */
  function Field(t: string, at: nat, width: nat): (v: nat)
    requires HexIn(t, at, at + width)
    ensures v < Pow16(width)
  {
    assert HexIn(t[at..at + width], 0, width);
    ParseHex(t[at..at + width])
  }

  /** Four digits read at once are the first two shifted by a byte, plus the last two. */
  lemma FieldSplit(t: string, at: nat)
    requires HexIn(t, at, at + 4)
    ensures Field(t, at, 4) == Field(t, at, 2) * 256 + Field(t, at + 2, 2)
  {
    assert t[at..at + 4] == t[at..at + 2] + t[at + 2..at + 4];
    ParseHexAppend(t[at..at + 2], t[at + 2..at + 4]);
    assert Pow16(2) == 256;
  }

  /** Upper-case digit for a value below 16. */
  function HexDigit(v: nat): (c: char)
    requires v < 16
    ensures IsHexDigit(c) && HexVal(c) == v
  {
    if v < 10 then ('0' as int + v) as char else ('A' as int + v - 10) as char
  }

  /** A byte as two upper-case hex digits. */
  function Hex2(b: byte): (r: string)
    ensures |r| == 2 && HexIn(r, 0, 2)
  {
    [HexDigit(b / 16), HexDigit(b % 16)]
  }

  /** Reading two written digits back gives the byte. */
  lemma Hex2Parse(b: byte)
    ensures ParseHex(Hex2(b)) == b
  {
    var r := Hex2(b);
    assert r[..1] == [HexDigit(b / 16)];
    assert r[..1][..0] == [];
  }

  /** A 16-bit value as four hex digits, high byte first. */
  function Hex4(a: nat): (r: string)
    requires a < 0x1_0000
    ensures |r| == 4 && HexIn(r, 0, 4)
  {
    Hex2(a / 256) + Hex2(a % 256)
  }

  /** Reading four written digits back gives the value. */
  lemma Hex4Parse(a: nat)
    requires a < 0x1_0000
    ensures ParseHex(Hex4(a)) == a
  {
    Hex2Parse(a / 256);
    Hex2Parse(a % 256);
    ParseHexAppend(Hex2(a / 256), Hex2(a % 256));
    assert Pow16(2) == 256;
  }

  /** Bytes as consecutive pairs of hex digits. */
  function HexBytes(p: seq<byte>): (r: string)
    ensures |r| == 2 * |p| && HexIn(r, 0, |r|)
  {
    if |p| == 0 then [] else Hex2(p[0]) + HexBytes(p[1..])
  }

  /** Byte `i` is written at digits `2 * i` and `2 * i + 1`. */
  lemma {:induction false} HexBytesAt(p: seq<byte>, i: nat)
    requires i < |p|
    ensures HexBytes(p)[2 * i..2 * i + 2] == Hex2(p[i])
  {
    if i > 0 {
      HexBytesAt(p[1..], i - 1);
      assert HexBytes(p)[2 * i..2 * i + 2] == HexBytes(p[1..])[2 * (i - 1)..2 * (i - 1) + 2];
    }
  }

  // ---------------------------------------------------------------------
  // Records
  // ---------------------------------------------------------------------

  /** Lines trimmed to fewer characters than this are skipped. */
  const MinRecordLength := 11

  const DataRecord := 0x00
  const SegmentRecord := 0x02
  const LinearRecord := 0x04

  /**
   Whether the decoder reads a payload for a record of this type and byte
   count: every data record, and extension records of exactly two bytes.
   */
  predicate ReadsPayload(kind: nat, count: nat)
  {
    kind == DataRecord || ((kind == SegmentRecord || kind == LinearRecord) && count == 2)
  }

  /**
   The characters of a trimmed record line the decoder feeds to `parseInt`
   are hex digits: byte count, address and type at 1..9, and the payload
   pairs from 9 on when it reads them.
   */
  predicate WellFormedRecord(t: string)
  {
    && |t| >= MinRecordLength
    && HexIn(t, 1, 9)
    && (ReadsPayload(Field(t, 7, 2), Field(t, 1, 2)) ==> HexIn(t, 9, 9 + 2 * Field(t, 1, 2)))
  }

  /** What the decoder takes from one record line. */
  datatype Record = Record(count: nat, address: nat, kind: nat, payload: seq<byte>)

  /** A record whose payload is as long as the decoder reads it. */
  predicate Shaped(r: Record)
  {
    |r.payload| == if ReadsPayload(r.kind, r.count) then r.count else 0
  }

  /** The two payload bytes of an extension record as one 16-bit value. */
  function Word(payload: seq<byte>): (w: nat)
    requires |payload| == 2
    ensures w < 0x1_0000
  {
    payload[0] as nat * 256 + payload[1] as nat
  }

  /**
   The fields of a trimmed record line: byte count at 1, address at 3,
   type at 7, and payload byte `i` at `9 + 2 * i`; the two payload bytes of
   an extension record read together are the four digits at 9.
   */
  function ParseRecord(t: string): (r: Record)
    requires WellFormedRecord(t)
    ensures r.count == Field(t, 1, 2) < 256
    ensures r.address == Field(t, 3, 4) < 0x1_0000
    ensures r.kind == Field(t, 7, 2) < 256
    ensures Shaped(r)
    ensures forall i :: 0 <= i < |r.payload| ==> r.payload[i] == Field(t, 9 + 2 * i, 2)
    ensures ReadsPayload(r.kind, r.count) && r.count == 2 ==> Word(r.payload) == Field(t, 9, 4)
  {
    assert Pow16(2) == 256 && Pow16(4) == 0x1_0000;
    var count := Field(t, 1, 2);
    var kind := Field(t, 7, 2);
    var payload := if ReadsPayload(kind, count)
      then seq(count, i requires 0 <= i < count => Field(t, 9 + 2 * i, 2) as byte)
      else [];
    var r := Record(count, Field(t, 3, 4), kind, payload);
    if ReadsPayload(kind, count) && count == 2 then FieldSplit(t, 9); r else r
  }

  // ---------------------------------------------------------------------
  // Writing records: the partner of `ParseRecord`
  // ---------------------------------------------------------------------

  /** A record that fits the line format, its payload written out in full. */
  predicate Canonical(r: Record)
  {
    r.count < 256 && r.address < 0x1_0000 && r.kind < 256 && |r.payload| == r.count
  }

  /** The part of a record the decoder looks at. */
  function Visible(r: Record): (v: Record)
    ensures Shaped(v) || !Canonical(r)
  {
    if ReadsPayload(r.kind, r.count) then r else r.(payload := [])
  }

  function SumBytes(p: seq<byte>): nat
  {
    if |p| == 0 then 0 else p[0] + SumBytes(p[1..])
  }

  /** The Intel HEX checksum: the two's complement of the byte sum of the record. */
  function RecordChecksum(r: Record): (c: byte)
    requires Canonical(r)
  {
    var sum := r.count + r.address / 256 + r.address % 256 + r.kind + SumBytes(r.payload);
    (256 - sum % 256) % 256
  }

  /** A record line with the given checksum byte. */
  function EncodeWith(r: Record, checksum: byte): (t: string)
    requires Canonical(r)
    ensures |t| == MinRecordLength + 2 * r.count
    ensures t[0] == ':' && HexIn(t, 1, |t|)
  {
    var digits := Hex2(r.count) + Hex4(r.address) + Hex2(r.kind) + HexBytes(r.payload) + Hex2(checksum);
    assert HexIn(digits, 0, |digits|);
    ":" + digits
  }

  /** A record line with its correct checksum. */
  function EncodeRecord(r: Record): string
    requires Canonical(r)
  {
    EncodeWith(r, RecordChecksum(r))
  }

  /**
   Decoding a written record gives back what the decoder looks at, whatever
   the checksum byte says: the checksum is never verified.
   */
  lemma ParseEncoded(r: Record, checksum: byte)
    requires Canonical(r)
    ensures WellFormedRecord(EncodeWith(r, checksum))
    ensures ParseRecord(EncodeWith(r, checksum)) == Visible(r)
  {
    var t := EncodeWith(r, checksum);
    EncodedHeader(r, checksum);
    var p := ParseRecord(t);
    if ReadsPayload(r.kind, r.count) {
      forall i | 0 <= i < r.count
        ensures p.payload[i] == r.payload[i]
      {
        EncodedPayload(r, checksum, i);
      }
      assert p.payload == r.payload;
    }
  }

  /** The byte count, address and type of a written record read back, and its payload digits sit from 9 on. */
  lemma EncodedHeader(r: Record, checksum: byte)
    requires Canonical(r)
    ensures var t := EncodeWith(r, checksum);
      && HexIn(t, 1, 9) && HexIn(t, 9, 9 + 2 * r.count)
      && Field(t, 1, 2) == r.count && Field(t, 3, 4) == r.address && Field(t, 7, 2) == r.kind
      && t[9..9 + 2 * r.count] == HexBytes(r.payload)
  {
    var t := EncodeWith(r, checksum);
    assert t[1..3] == Hex2(r.count);
    assert t[3..7] == Hex4(r.address);
    assert t[7..9] == Hex2(r.kind);
    assert t[9..9 + 2 * r.count] == HexBytes(r.payload);
    Hex2Parse(r.count);
    Hex4Parse(r.address);
    Hex2Parse(r.kind);
  }

  /** Payload byte `i` of a written record reads back from digits `9 + 2 * i` on. */
  lemma EncodedPayload(r: Record, checksum: byte, i: nat)
    requires Canonical(r) && i < r.count
    ensures var t := EncodeWith(r, checksum);
      HexIn(t, 9 + 2 * i, 9 + 2 * i + 2) && Field(t, 9 + 2 * i, 2) == r.payload[i]
  {
    var t := EncodeWith(r, checksum);
    var body := HexBytes(r.payload);
    EncodedHeader(r, checksum);
    assert t[9 + 2 * i..9 + 2 * i + 2] == body[2 * i..2 * i + 2];
    HexBytesAt(r.payload, i);
    Hex2Parse(r.payload[i]);
  }

  // ---------------------------------------------------------------------
  // Decoding state
  // ---------------------------------------------------------------------

  /**
   `AsWritten` follows the source's arithmetic: a signed 32-bit `<< 16` and
   a running minimum and maximum that start at 0xFFFFFFFF and 0.
   `Intended` uses unsigned addresses and the lowest and highest address
   actually written.
   */
  datatype Mode = AsWritten | Intended

  /** The extension registers, the bytes placed so far and the running address bounds. */
  datatype State = State(linear: nat, segment: nat, mem: map<int, byte>, lo: int, hi: int)

  const Start := State(0, 0, map[], 0xFFFF_FFFF, 0)

  /** JavaScript's conversion of a shift result to a signed 32-bit integer. */
  function ToInt32(x: int): (r: int)
    ensures -0x8000_0000 <= r < 0x8000_0000
    ensures (r - x) % 0x1_0000_0000 == 0
  {
    var m := x % 0x1_0000_0000;
    if m >= 0x8000_0000 then m - 0x1_0000_0000 else m
  }

  /** `(linear << 16) + (segment << 4)`. */
  function Base(mode: Mode, st: State): int
  {
    (if mode == AsWritten then ToInt32(st.linear * 0x1_0000) else st.linear * 0x1_0000) + st.segment * 16
  }

  /**
   Below a linear extension of 0x8000 the signed shift does not overflow and
   both arithmetics give the same base; from 0x8000 on the signed one is
   2^32 lower.
   */
  lemma BaseModes(st: State)
    requires st.linear < 0x1_0000
    ensures Base(Intended, st) == st.linear * 0x1_0000 + st.segment * 16
    ensures st.linear < 0x8000 ==> Base(AsWritten, st) == Base(Intended, st)
    ensures st.linear >= 0x8000 ==> Base(AsWritten, st) == Base(Intended, st) - 0x1_0000_0000
  {
    var x := st.linear * 0x1_0000;
    DivUnique(x, 0x1_0000_0000, 0, x);
  }

  /**
   Every placed address lies within the bounds. Under `Intended` both bounds
   are placed addresses; under `AsWritten` the minimum is a placed address
   unless it is still its starting value 0xFFFFFFFF, and the maximum is one
   unless it is still its starting value 0.
   */
  predicate Inv(mode: Mode, st: State)
  {
    && (forall a :: a in st.mem ==> st.lo <= a <= st.hi)
    && (mode == Intended && st.mem != map[] ==> st.lo in st.mem && st.hi in st.mem)
    && (mode == AsWritten ==> st.lo <= 0xFFFF_FFFF && (st.lo < 0xFFFF_FFFF ==> st.lo in st.mem))
    && (mode == AsWritten ==> 0 <= st.hi && (st.hi > 0 ==> st.hi in st.mem))
  }

  /** `dataMap.set(a, b)` with the bounds updated. */
  function Put(mode: Mode, st: State, a: int, b: byte): (r: State)
    ensures r.linear == st.linear && r.segment == st.segment
    ensures r.mem == st.mem[a := b]
    ensures Inv(mode, st) ==> Inv(mode, r)
  {
    if mode == Intended && st.mem == map[] then st.(mem := st.mem[a := b], lo := a, hi := a)
    else st.(mem := st.mem[a := b], lo := Min(st.lo, a), hi := Max(st.hi, a))
  }

  /**
   The bytes of one data record placed from address `a` on: exactly the
   addresses `a .. a + |data|` are added, each holding its byte, and every
   other placed byte keeps its value.
   */
  function Place(mode: Mode, st: State, a: int, data: seq<byte>): (r: State)
    ensures r.linear == st.linear && r.segment == st.segment
    ensures forall k :: k in r.mem <==> k in st.mem || a <= k < a + |data|
    ensures forall i :: 0 <= i < |data| ==> r.mem[a + i] == data[i]
    ensures forall k :: k in st.mem && !(a <= k < a + |data|) ==> r.mem[k] == st.mem[k]
    ensures Inv(mode, st) ==> Inv(mode, r)
    ensures |data| > 0 && (mode == AsWritten || st.mem != map[]) ==>
      r.lo == Min(st.lo, a) && r.hi == Max(st.hi, a + |data| - 1)
    ensures |data| > 0 && mode == Intended && st.mem == map[] ==>
      r.lo == a && r.hi == a + |data| - 1
    decreases |data|
  {
    if |data| == 0 then st
    else
      var r := Place(mode, Put(mode, st, a, data[0]), a + 1, data[1..]);
      assert forall i :: 1 <= i < |data| ==> data[i] == data[1..][i - 1];
      r
  }

  /** One record's effect on the state. */
  function Apply(mode: Mode, st: State, r: Record): (s: State)
    requires Shaped(r)
    ensures r.kind == DataRecord ==> s == Place(mode, st, Base(mode, st) + r.address, r.payload)
    ensures r.kind == SegmentRecord && r.count == 2 ==> s == st.(segment := Word(r.payload))
    ensures r.kind == LinearRecord && r.count == 2 ==> s == st.(linear := Word(r.payload))
    ensures !ReadsPayload(r.kind, r.count) ==> s == st
    ensures Inv(mode, st) ==> Inv(mode, s)
  {
    if r.kind == DataRecord then Place(mode, st, Base(mode, st) + r.address, r.payload)
    else if r.kind == SegmentRecord && r.count == 2 then st.(segment := Word(r.payload))
    else if r.kind == LinearRecord && r.count == 2 then st.(linear := Word(r.payload))
    else st
  }

  /** Records applied in order, later bytes overwriting earlier ones at the same address. */
  function ApplyAll(mode: Mode, st: State, rs: seq<Record>): (s: State)
    requires forall i :: 0 <= i < |rs| ==> Shaped(rs[i])
    ensures Inv(mode, st) ==> Inv(mode, s)
    decreases |rs|
  {
    if |rs| == 0 then st else ApplyAll(mode, Apply(mode, st, rs[0]), rs[1..])
  }

  // ---------------------------------------------------------------------
  // Lines to records
  // ---------------------------------------------------------------------

  /** `line.trim().startsWith(":")`. */
  predicate StartsRecord(line: string)
  {
    |Trim(line)| > 0 && Trim(line)[0] == ':'
  }

  /** The lines kept by the `filter`, in their order. */
  function Candidates(lines: seq<string>): (r: seq<string>)
    ensures |r| <= |lines|
    ensures forall l :: l in r <==> l in lines && StartsRecord(l)
  {
    if |lines| == 0 then []
    else if StartsRecord(lines[0]) then [lines[0]] + Candidates(lines[1..])
    else
      assert forall l :: l in lines <==> l == lines[0] || l in lines[1..];
      Candidates(lines[1..])
  }

  /** The filter keeps a single line exactly when it starts a record. */
  lemma CandidatesOne(line: string)
    ensures Candidates([line]) == if StartsRecord(line) then [line] else []
  {
  }

  /**
   Filtering a concatenation filters each part and keeps the parts in
   order; with `CandidatesOne` this pins the filter down as order-preserving.
   */
  lemma {:induction false} CandidatesAppend(a: seq<string>, b: seq<string>)
    ensures Candidates(a + b) == Candidates(a) + Candidates(b)
    decreases |a|
  {
    if |a| == 0 {
      assert a + b == b;
    } else {
      assert (a + b)[0] == a[0];
      assert (a + b)[1..] == a[1..] + b;
      CandidatesAppend(a[1..], b);
    }
  }

  /** A line long enough to be decoded has hex digits wherever the decoder reads. */
  predicate Readable(line: string)
  {
    |Trim(line)| >= MinRecordLength ==> WellFormedRecord(Trim(line))
  }

  /** One pass of the `for` loop: short lines are skipped, the rest decoded and applied. */
  function Step(mode: Mode, st: State, line: string): (s: State)
    requires Readable(line)
    ensures |Trim(line)| < MinRecordLength ==> s == st
    ensures Inv(mode, st) ==> Inv(mode, s)
  {
    if |Trim(line)| < MinRecordLength then st else Apply(mode, st, ParseRecord(Trim(line)))
  }

  /** The loop over the kept lines. */
  function Decode(mode: Mode, st: State, lines: seq<string>): (s: State)
    requires forall i :: 0 <= i < |lines| ==> Readable(lines[i])
    ensures Inv(mode, st) ==> Inv(mode, s)
    decreases |lines|
  {
    if |lines| == 0 then st else Decode(mode, Step(mode, st, lines[0]), lines[1..])
  }

  /** A line that decodes to a data record carrying at least one byte. */
  predicate CarriesData(line: string)
  {
    && Readable(line)
    && |Trim(line)| >= MinRecordLength
    && ParseRecord(Trim(line)).kind == DataRecord
    && ParseRecord(Trim(line)).count > 0
  }

  /** Some line of `lines` is a data record with a byte. */
  predicate AnyData(lines: seq<string>)
  {
    |lines| > 0 && (CarriesData(lines[0]) || AnyData(lines[1..]))
  }

  /** One line leaves the memory empty exactly when it was empty and the line carries no byte. */
  lemma StepEmpty(mode: Mode, st: State, line: string)
    requires Readable(line)
    ensures Step(mode, st, line).mem == map[] <==> st.mem == map[] && !CarriesData(line)
  {
    var s := Step(mode, st, line);
    if |Trim(line)| >= MinRecordLength {
      var r := ParseRecord(Trim(line));
      if r.kind == DataRecord && r.count > 0 {
        assert Base(mode, st) + r.address in s.mem;
      } else if r.kind == DataRecord {
        assert forall k :: k in s.mem <==> k in st.mem;
      }
    }
  }

  /** The decoder places a byte exactly when some line is a data record with a byte. */
  lemma {:induction false} DecodeEmpty(mode: Mode, st: State, lines: seq<string>)
    requires forall i :: 0 <= i < |lines| ==> Readable(lines[i])
    ensures Decode(mode, st, lines).mem == map[] <==> st.mem == map[] && !AnyData(lines)
    decreases |lines|
  {
    if |lines| > 0 {
      StepEmpty(mode, st, lines[0]);
      DecodeEmpty(mode, Step(mode, st, lines[0]), lines[1..]);
    }
  }

  // ---------------------------------------------------------------------
  // The image
  // ---------------------------------------------------------------------

  /** `{ arrayBuffer, baseAddr, size }`. */
  datatype Image = Image(data: seq<byte>, baseAddr: int, size: nat)

  /** Every placed address lies within the running bounds. */
  predicate Bounded(st: State)
  {
    forall a :: a in st.mem ==> st.lo <= a <= st.hi
  }

  /** The image byte at address `a`: the byte placed there, or the 0xFF fill. */
  function Cell(mem: map<int, byte>, a: int): byte
  {
    if a in mem then mem[a] else 0xFF
  }

  /**
   The image holds every placed byte: each address written lies inside it,
   and each of its bytes is the one placed at its address, or the fill.
   */
  predicate Shows(img: Image, mem: map<int, byte>)
  {
    && |img.data| == img.size
    && (forall a :: a in mem ==> img.baseAddr <= a < img.baseAddr + img.size)
    && (forall i :: 0 <= i < |img.data| ==> img.data[i] == Cell(mem, img.baseAddr + i))
  }

  /**
   No byte placed is an error; otherwise the image runs from the lower
   bound to the upper bound and holds at each offset the byte placed at
   that address, or 0xFF where none was.
   */
  function Layout(st: State): (r: Result<Image>)
    requires Bounded(st)
    ensures r.Err? <==> st.mem == map[]
    ensures r.Err? ==> r.error == NoData
    ensures r.Ok? ==> r.value.baseAddr == st.lo && r.value.size == st.hi - st.lo + 1 == |r.value.data|
    ensures r.Ok? ==> forall i :: 0 <= i < |r.value.data| ==> r.value.data[i] == Cell(st.mem, st.lo + i)
    ensures r.Ok? ==> Shows(r.value, st.mem)
  {
    if st.mem == map[] then Err(NoData)
    else
      SomeAddress(st.mem);
      var size := st.hi - st.lo + 1;
      var data := seq<byte>(size, i => Cell(st.mem, st.lo + i));
      Ok(Image(data, st.lo, size))
  }

  /** A map with an entry has a key. */
  lemma SomeAddress(m: map<int, byte>)
    requires m != map[]
    ensures exists a :: a in m
  {
    if forall a :: a !in m {
      assert false;
    }
  }

  /** The lines the `filter` keeps. */
  function Kept(text: string): seq<string>
  {
    Candidates(SplitLines(text))
  }

  /** Every kept line can be decoded. */
  predicate WellFormedText(text: string)
  {
    forall i :: 0 <= i < |Kept(text)| ==> Readable(Kept(text)[i])
  }

  /** The state after the loop over the whole text. */
  function Decoded(mode: Mode, text: string): (st: State)
    requires WellFormedText(text)
    ensures Inv(mode, st)
  {
    Decode(mode, Start, Kept(text))
  }

  /** Some kept line is a data record with at least one byte. */
  predicate HasData(text: string)
  {
    AnyData(Kept(text))
  }

  /**
   `hexToBin(text)`: an error exactly when no data record carries a byte;
   otherwise every byte a data record placed sits at its address minus the
   base, and every other byte of the image is 0xFF.
   */
  function HexToBin(mode: Mode, text: string): (r: Result<Image>)
    requires WellFormedText(text)
    ensures r.Err? <==> !HasData(text)
    ensures r.Err? ==> r.error == NoData
    ensures r.Ok? ==> Shows(r.value, Decoded(mode, text).mem)
    ensures r.Ok? ==> r.value.baseAddr == Decoded(mode, text).lo
    ensures r.Ok? ==> r.value.size == Decoded(mode, text).hi - Decoded(mode, text).lo + 1
  {
    var st := Decoded(mode, text);
    assert st.mem == map[] <==> !HasData(text) by {
      DecodeEmpty(mode, Start, Kept(text));
    }
    Layout(st)
  }

  /** The address of the image's last byte. */
  function LastAddress(img: Image): int
  {
    img.baseAddr + img.size - 1
  }

  /**
   With unsigned arithmetic the image starts at the lowest address written
   and ends at the highest: both ends are placed bytes.
   */
  lemma IntendedBounds(text: string)
    requires WellFormedText(text)
    requires HexToBin(Intended, text).Ok?
    ensures HexToBin(Intended, text).value.baseAddr in Decoded(Intended, text).mem
    ensures LastAddress(HexToBin(Intended, text).value) in Decoded(Intended, text).mem
  {
    BoundsOfImage(Intended, text);
    IntendedEnds(Decoded(Intended, text), HexToBin(Intended, text).value);
  }

  /** Under unsigned arithmetic, an image spanning the bounds of a non-empty memory starts and ends on placed bytes. */
  lemma IntendedEnds(st: State, img: Image)
    requires Inv(Intended, st) && st.mem != map[]
    requires img.baseAddr == st.lo && LastAddress(img) == st.hi
    ensures img.baseAddr in st.mem && LastAddress(img) in st.mem
  {
  }

  /**
   As written, the image starts at the lowest address written unless every
   address is 0xFFFFFFFF or more, where the minimum's start value wins, and
   it ends at the highest address written unless every address is 0 or
   less, where the maximum's start value wins.
   */
  lemma AsWrittenBounds(text: string)
    requires WellFormedText(text)
    requires HexToBin(AsWritten, text).Ok?
    ensures var img, mem := HexToBin(AsWritten, text).value, Decoded(AsWritten, text).mem;
      && (forall a :: a in mem ==> img.baseAddr <= a <= LastAddress(img))
      && img.baseAddr <= 0xFFFF_FFFF && (img.baseAddr < 0xFFFF_FFFF ==> img.baseAddr in mem)
      && LastAddress(img) >= 0 && (LastAddress(img) > 0 ==> LastAddress(img) in mem)
  {
    BoundsOfImage(AsWritten, text);
    AsWrittenEnds(Decoded(AsWritten, text), HexToBin(AsWritten, text).value);
  }

  /** As written, an image spanning the bounds covers every placed address and ends on placed bytes or start values. */
  lemma AsWrittenEnds(st: State, img: Image)
    requires Inv(AsWritten, st)
    requires img.baseAddr == st.lo && LastAddress(img) == st.hi
    ensures forall a :: a in st.mem ==> img.baseAddr <= a <= LastAddress(img)
    ensures img.baseAddr <= 0xFFFF_FFFF && (img.baseAddr < 0xFFFF_FFFF ==> img.baseAddr in st.mem)
    ensures LastAddress(img) >= 0 && (LastAddress(img) > 0 ==> LastAddress(img) in st.mem)
  {
  }

  /** The image's ends are the decoded state's bounds. */
  lemma BoundsOfImage(mode: Mode, text: string)
    requires WellFormedText(text)
    requires HexToBin(mode, text).Ok?
    ensures HexToBin(mode, text).value.baseAddr == Decoded(mode, text).lo
    ensures LastAddress(HexToBin(mode, text).value) == Decoded(mode, text).hi
    ensures Decoded(mode, text).mem != map[]
  {
  }

  // ---------------------------------------------------------------------
  // Whole texts
  // ---------------------------------------------------------------------

  /** Each record as a line with its checksum. */
  function EncodeAll(rs: seq<Record>): (lines: seq<string>)
    requires forall i :: 0 <= i < |rs| ==> Canonical(rs[i])
    ensures |lines| == |rs|
    ensures forall i :: 0 <= i < |rs| ==> lines[i] == EncodeRecord(rs[i])
  {
    seq(|rs|, i requires 0 <= i < |rs| => EncodeRecord(rs[i]))
  }

  /** A HEX text: one record per line, lines separated by line feeds. */
  function EncodeText(rs: seq<Record>): string
    requires |rs| > 0
    requires forall i :: 0 <= i < |rs| ==> Canonical(rs[i])
  {
    JoinLines(EncodeAll(rs))
  }

  /** What the decoder looks at in each record. */
  function VisibleAll(rs: seq<Record>): (vs: seq<Record>)
    requires forall i :: 0 <= i < |rs| ==> Canonical(rs[i])
    ensures |vs| == |rs|
    ensures forall i :: 0 <= i < |rs| ==> vs[i] == Visible(rs[i]) && Shaped(vs[i])
  {
    seq(|rs|, i requires 0 <= i < |rs| => Visible(rs[i]))
  }

  /** A written record line is its own trim, is kept by the filter, and decodes to what it says. */
  lemma EncodedLine(r: Record)
    requires Canonical(r)
    ensures '\n' !in EncodeRecord(r)
    ensures Trim(EncodeRecord(r)) == EncodeRecord(r)
    ensures StartsRecord(EncodeRecord(r)) && Readable(EncodeRecord(r))
    ensures |EncodeRecord(r)| >= MinRecordLength
    ensures ParseRecord(EncodeRecord(r)) == Visible(r)
  {
    EncodedShape(r, RecordChecksum(r));
    ParseEncoded(r, RecordChecksum(r));
  }

  /** A written line is all colon and hex digits: no line break, nothing to trim. */
  lemma EncodedShape(r: Record, checksum: byte)
    requires Canonical(r)
    ensures '\n' !in EncodeWith(r, checksum)
    ensures Trim(EncodeWith(r, checksum)) == EncodeWith(r, checksum)
  {
    var t := EncodeWith(r, checksum);
    TrimFixed(t);
    if '\n' in t {
      assert false;
    }
  }

  /** The filter keeps every line that starts a record. */
  lemma {:induction false} CandidatesAll(lines: seq<string>)
    requires forall i :: 0 <= i < |lines| ==> StartsRecord(lines[i])
    ensures Candidates(lines) == lines
  {
    if |lines| > 0 {
      CandidatesAll(lines[1..]);
    }
  }

  /** Every written line can be decoded. */
  lemma EncodedReadable(rs: seq<Record>)
    requires forall i :: 0 <= i < |rs| ==> Canonical(rs[i])
    ensures forall i :: 0 <= i < |rs| ==> Readable(EncodeAll(rs)[i])
  {
    forall i | 0 <= i < |rs|
      ensures Readable(EncodeAll(rs)[i])
    {
      EncodedLine(rs[i]);
    }
  }

  /** One written line has the effect of the record it was written from. */
  lemma StepEncoded(mode: Mode, st: State, r: Record)
    requires Canonical(r)
    ensures Readable(EncodeRecord(r)) && Shaped(Visible(r))
    ensures Step(mode, st, EncodeRecord(r)) == Apply(mode, st, Visible(r))
  {
    EncodedLine(r);
  }

  /** Decoding written lines applies the records they were written from. */
  lemma {:induction false} DecodeEncodedLines(mode: Mode, st: State, rs: seq<Record>)
    requires forall i :: 0 <= i < |rs| ==> Canonical(rs[i])
    ensures forall i :: 0 <= i < |rs| ==> Readable(EncodeAll(rs)[i])
    ensures Decode(mode, st, EncodeAll(rs)) == ApplyAll(mode, st, VisibleAll(rs))
    decreases |rs|
  {
    EncodedReadable(rs);
    if |rs| > 0 {
      var lines, vs := EncodeAll(rs), VisibleAll(rs);
      StepEncoded(mode, st, rs[0]);
      assert lines[1..] == EncodeAll(rs[1..]);
      assert vs[1..] == VisibleAll(rs[1..]);
      DecodeEncodedLines(mode, Apply(mode, st, vs[0]), rs[1..]);
      assert Decode(mode, st, lines) == Decode(mode, Apply(mode, st, vs[0]), lines[1..]);
    }
  }

  /**
   A text written from records decodes to exactly the image those records
   describe: the filter, the trimming, the line splitting and the field
   parsing lose nothing.
   */
  lemma DecodeText(mode: Mode, rs: seq<Record>)
    requires |rs| > 0
    requires forall i :: 0 <= i < |rs| ==> Canonical(rs[i])
    ensures WellFormedText(EncodeText(rs))
    ensures Decoded(mode, EncodeText(rs)) == ApplyAll(mode, Start, VisibleAll(rs))
    ensures HexToBin(mode, EncodeText(rs)) == Layout(ApplyAll(mode, Start, VisibleAll(rs)))
  {
    var lines := EncodeAll(rs);
    forall i | 0 <= i < |lines|
      ensures '\n' !in lines[i] && StartsRecord(lines[i])
    {
      EncodedLine(rs[i]);
    }
    SplitJoin(lines);
    CandidatesAll(lines);
    DecodeEncodedLines(mode, Start, rs);
  }

  // ---------------------------------------------------------------------
  // Examples
  // ---------------------------------------------------------------------

  /** Linear extension 0x0800, four data bytes at offset 0, end of file. */
  const FlashImage := [Record(2, 0, LinearRecord, [0x08, 0x00]), Record(4, 0, DataRecord, [1, 2, 3, 4]), Record(0, 0, 1, [])]

  /** The text of `FlashImage`, as a linker would write it. */
  lemma FlashImageText()
    ensures EncodeText(FlashImage) == ":020000040800F2" + "\n" + (":0400000001020304F2" + "\n" + ":00000001FF")
  {
    FlashLine0();
    FlashLine1();
    FlashLine2();
    JoinThree(FlashImage, ":020000040800F2", ":0400000001020304F2", ":00000001FF");
  }

  /** The text of three records from the text of each. */
  lemma JoinThree(rs: seq<Record>, l0: string, l1: string, l2: string)
    requires |rs| == 3 && forall i :: 0 <= i < 3 ==> Canonical(rs[i])
    requires EncodeRecord(rs[0]) == l0 && EncodeRecord(rs[1]) == l1 && EncodeRecord(rs[2]) == l2
    ensures EncodeText(rs) == l0 + "\n" + (l1 + "\n" + l2)
  {
    assert EncodeAll(rs) == [l0, l1, l2];
    assert [l0, l1, l2][1..] == [l1, l2];
    assert [l1, l2][1..] == [l2];
    assert JoinLines([l2]) == l2;
    assert JoinLines([l1, l2]) == l1 + "\n" + l2;
  }

  /** The text of two records from the text of each. */
  lemma JoinTwo(rs: seq<Record>, l0: string, l1: string)
    requires |rs| == 2 && forall i :: 0 <= i < 2 ==> Canonical(rs[i])
    requires EncodeRecord(rs[0]) == l0 && EncodeRecord(rs[1]) == l1
    ensures EncodeText(rs) == l0 + "\n" + l1
  {
    var lines := EncodeAll(rs);
    assert lines == [l0, l1];
    assert lines[1..] == [l1];
    assert JoinLines(lines[1..]) == l1;
    assert JoinLines(lines) == l0 + "\n" + JoinLines(lines[1..]);
  }

  lemma FlashLine0()
    ensures EncodeRecord(FlashImage[0]) == ":020000040800F2"
  {
    assert Hex2(2) == "02" && Hex4(0) == "0000" && Hex2(4) == "04";
    assert HexBytes([0x08, 0x00]) == "0800" by {
      assert Hex2(8) == "08" && Hex2(0) == "00";
    }
    assert RecordChecksum(FlashImage[0]) == 0xF2;
    assert Hex2(0xF2) == "F2";
  }

  lemma FlashLine1()
    ensures EncodeRecord(FlashImage[1]) == ":0400000001020304F2"
  {
    FlashFields();
    FlashPayload();
    FlashChecksum();
    LineText(FlashImage[1], "04", "0000", "00", "01020304", "F2");
  }

  lemma FlashFields()
    ensures Hex2(FlashImage[1].count) == "04"
    ensures Hex4(FlashImage[1].address) == "0000"
    ensures Hex2(FlashImage[1].kind) == "00"
  {
    assert Hex2(0) == "00";
    assert Hex4(0) == Hex2(0) + Hex2(0);
  }

  lemma FlashChecksum()
    ensures Hex2(RecordChecksum(FlashImage[1])) == "F2"
  {
    assert RecordChecksum(FlashImage[1]) == 0xF2;
  }

  /** A record line from the text of its fields. */
  lemma LineText(r: Record, count: string, address: string, kind: string, payload: string, checksum: string)
    requires Canonical(r)
    requires Hex2(r.count) == count && Hex4(r.address) == address && Hex2(r.kind) == kind
    requires HexBytes(r.payload) == payload && Hex2(RecordChecksum(r)) == checksum
    ensures EncodeRecord(r) == ":" + count + address + kind + payload + checksum
  {
  }

  lemma FlashPayload()
    ensures HexBytes([1, 2, 3, 4]) == "01020304"
  {
    assert Hex2(1) == "01" && Hex2(2) == "02" && Hex2(3) == "03" && Hex2(4) == "04";
    assert HexBytes([4]) == "04";
    assert HexBytes([3, 4]) == "0304";
    assert HexBytes([2, 3, 4]) == "020304";
  }

  lemma FlashLine2()
    ensures EncodeRecord(FlashImage[2]) == ":00000001FF"
  {
    assert Hex2(0) == "00" && Hex4(0) == "0000" && Hex2(1) == "01";
    assert HexBytes([]) == "";
    assert RecordChecksum(FlashImage[2]) == 0xFF;
    assert Hex2(0xFF) == "FF";
  }

  /** Bytes 1, 2, 3, 4 placed from 0x08000000 on, and nothing else. */
  predicate FourPlaced(st: State)
  {
    && st.mem == map[0x0800_0000 := 1, 0x0800_0001 := 2, 0x0800_0002 := 3, 0x0800_0003 := 4]
    && st.lo == 0x0800_0000 && st.hi == 0x0800_0003
  }

  /** The state after decoding `FlashImage`, under either arithmetic. */
  lemma FlashImageState(mode: Mode)
    ensures FourPlaced(ApplyAll(mode, Start, VisibleAll(FlashImage)))
  {
    var s1 := Start.(linear := 0x0800);
    FlashVisible();
    FlashRecords(mode);
    PlaceFour(mode, s1);
  }

  /** The decoder sees every field of `FlashImage`. */
  lemma FlashVisible()
    ensures VisibleAll(FlashImage) == FlashImage
  {
  }

  /** `FlashImage` sets the linear extension to 0x0800 and then places its four bytes from 0x08000000. */
  lemma FlashRecords(mode: Mode)
    ensures ApplyAll(mode, Start, FlashImage)
         == Place(mode, Start.(linear := 0x0800), 0x0800_0000, [1, 2, 3, 4])
  {
    FlashLinear(mode);
    FlashData(mode);
    FlashEnd(mode);
  }

  /** The first record sets the linear extension. */
  lemma FlashLinear(mode: Mode)
    ensures ApplyAll(mode, Start, FlashImage) == ApplyAll(mode, Start.(linear := 0x0800), FlashImage[1..])
  {
    assert Apply(mode, Start, FlashImage[0]) == Start.(linear := 0x0800);
  }

  /** The second record places four bytes from 0x08000000. */
  lemma FlashData(mode: Mode)
    ensures FlashImage[1..] == [FlashImage[1], FlashImage[2]] && FlashImage[2..] == [FlashImage[2]]
    ensures ApplyAll(mode, Start.(linear := 0x0800), FlashImage[1..])
         == ApplyAll(mode, Place(mode, Start.(linear := 0x0800), 0x0800_0000, [1, 2, 3, 4]), FlashImage[2..])
  {
    var s1 := Start.(linear := 0x0800);
    var rs := FlashImage[1..];
    assert rs[1..] == FlashImage[2..];
    assert Base(mode, s1) == 0x0800_0000 by {
      BaseModes(s1);
    }
  }

  /** The end-of-file record changes nothing. */
  lemma FlashEnd(mode: Mode)
    ensures forall st :: ApplyAll(mode, st, FlashImage[2..]) == st
  {
    forall st
      ensures ApplyAll(mode, st, FlashImage[2..]) == st
    {
      assert FlashImage[2..][1..] == [];
    }
  }

  /** Four bytes placed at 0x08000000 into an empty memory. */
  lemma PlaceFour(mode: Mode, st: State)
    requires st.mem == map[] && st.lo == 0xFFFF_FFFF && st.hi == 0
    ensures var r := Place(mode, st, 0x0800_0000, [1, 2, 3, 4]);
      && r.mem == map[0x0800_0000 := 1, 0x0800_0001 := 2, 0x0800_0002 := 3, 0x0800_0003 := 4]
      && r.lo == 0x0800_0000 && r.hi == 0x0800_0003
  {
    var data: seq<byte> := [1, 2, 3, 4];
    var r := Place(mode, st, 0x0800_0000, data);
    var m := map[0x0800_0000 := 1, 0x0800_0001 := 2, 0x0800_0002 := 3, 0x0800_0003 := 4];
    assert forall k :: k in r.mem <==> k in m;
    assert r.mem[0x0800_0000 + 0] == data[0] && r.mem[0x0800_0000 + 1] == data[1];
    assert r.mem[0x0800_0000 + 2] == data[2] && r.mem[0x0800_0000 + 3] == data[3];
    assert r.mem == m;
  }

  /** The image the records of `FlashImage` describe. */
  lemma FlashImageLayout(mode: Mode)
    ensures Layout(ApplyAll(mode, Start, VisibleAll(FlashImage))) == Ok(Image([1, 2, 3, 4], 0x0800_0000, 4))
  {
    var st := ApplyAll(mode, Start, VisibleAll(FlashImage));
    FlashImageState(mode);
    FourBytes(st);
  }

  /** Four bytes 1, 2, 3, 4 placed from 0x08000000 on lay out as exactly those bytes. */
  lemma FourBytes(st: State)
    requires FourPlaced(st)
    ensures Bounded(st)
    ensures Layout(st) == Ok(Image([1, 2, 3, 4], 0x0800_0000, 4))
  {
    assert 0x0800_0000 in st.mem;
    var img := Layout(st).value;
    assert img.data == [1, 2, 3, 4];
  }

  /** A typical STM32 image lands at 0x08000000 under either arithmetic. */
  lemma FlashImageBase(mode: Mode)
    ensures WellFormedText(EncodeText(FlashImage))
    ensures HexToBin(mode, EncodeText(FlashImage)) == Ok(Image([1, 2, 3, 4], 0x0800_0000, 4))
  {
    DecodeText(mode, FlashImage);
    FlashImageLayout(mode);
  }

  /** Linear extension 0x8000 and one data byte 0x00 at offset 0. */
  const HighImage := [Record(2, 0, LinearRecord, [0x80, 0x00]), Record(1, 0, DataRecord, [0x00])]

  /** The text of `HighImage`. */
  lemma HighImageText()
    ensures EncodeText(HighImage) == ":020000048000" + "7A" + "\n" + ":0100000000FF"
  {
    HighLine0();
    HighLine1();
    JoinTwo(HighImage, ":020000048000" + "7A", ":0100000000FF");
  }

  lemma HighLine0()
    ensures EncodeRecord(HighImage[0]) == ":020000048000" + "7A"
  {
    assert Hex2(2) == "02" && Hex4(0) == "0000" && Hex2(4) == "04";
    assert HexBytes([0x80, 0x00]) == "8000" by {
      assert Hex2(0x80) == "80" && Hex2(0) == "00";
    }
    assert RecordChecksum(HighImage[0]) == 0x7A;
    assert Hex2(0x7A) == "7A";
  }

  lemma HighLine1()
    ensures EncodeRecord(HighImage[1]) == ":0100000000FF"
  {
    assert Hex2(1) == "01" && Hex4(0) == "0000" && Hex2(0) == "00";
    assert HexBytes([0x00]) == "00";
    assert RecordChecksum(HighImage[1]) == 0xFF;
    assert Hex2(0xFF) == "FF";
  }

  /** The state after decoding `HighImage`: the base is `(0x8000 << 16)` in the chosen arithmetic. */
  lemma HighImageState(mode: Mode)
    ensures var st, a := ApplyAll(mode, Start, VisibleAll(HighImage)), if mode == AsWritten then -0x8000_0000 else 0x8000_0000;
      && st.mem == map[a := 0]
      && st.lo == a && st.hi == (if mode == AsWritten then 0 else a)
  {
    var vs := VisibleAll(HighImage);
    assert vs == HighImage;
    var s1 := Apply(mode, Start, vs[0]);
    assert s1 == Start.(linear := 0x8000);
    var a := Base(mode, s1);
    BaseModes(s1);
    assert a == if mode == AsWritten then -0x8000_0000 else 0x8000_0000;
    var s2 := Apply(mode, s1, vs[1]);
    assert s2 == Place(mode, s1, a, [0]);
    assert s2.mem == map[a := 0];
    assert ApplyAll(mode, Start, vs) == ApplyAll(mode, s1, vs[1..]);
    assert ApplyAll(mode, s1, vs[1..]) == ApplyAll(mode, s2, []);
  }

  /** The image the records of `HighImage` describe, in either arithmetic. */
  lemma HighImageLayout(mode: Mode)
    ensures var r := Layout(ApplyAll(mode, Start, VisibleAll(HighImage)));
      && (mode == AsWritten ==> r.Ok? && r.value.baseAddr == -0x8000_0000 && r.value.size == 0x8000_0001)
      && (mode == Intended ==> r == Ok(Image([0x00], 0x8000_0000, 1)))
  {
    HighImageState(mode);
    var st := ApplyAll(mode, Start, VisibleAll(HighImage));
    if mode == Intended {
      var img := Layout(st).value;
      assert img.data == [0x00] by {
        assert img.data[0] == 0x00;
      }
    }
  }

  /**
   As written, `0x8000 << 16` is -2^31: the byte lands at a negative
   address, the running maximum stays at its initial 0, and the image
   claims 2^31 + 1 bytes starting at -2^31.
   */
  lemma HighImageAsWritten()
    ensures WellFormedText(EncodeText(HighImage))
    ensures var r := HexToBin(AsWritten, EncodeText(HighImage));
      r.Ok? && r.value.baseAddr == -0x8000_0000 && r.value.size == 0x8000_0001
  {
    DecodeText(AsWritten, HighImage);
    HighImageLayout(AsWritten);
  }

  /** With unsigned arithmetic the same text is one byte at 0x80000000. */
  lemma HighImageIntended()
    ensures WellFormedText(EncodeText(HighImage))
    ensures HexToBin(Intended, EncodeText(HighImage)) == Ok(Image([0x00], 0x8000_0000, 1))
  {
    DecodeText(Intended, HighImage);
    HighImageLayout(Intended);
  }
}
