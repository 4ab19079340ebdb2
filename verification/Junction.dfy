/**
 * The hand-built junction buffer (internal/certwriter/certwriter_windows.go): the Mount Point Reparse Data Buffer of
 * section 2.1.2.5 of [MS-FSCC], written and read byte by byte with 16-bit lengths.
 */
module Junction {
  import opened Basics

  type Byte = x: int | 0 <= x < 256
  type Unit = x: int | 0 <= x < 0x10000  // one UTF-16 code unit, and every uint16

  const MOUNT_POINT_TAG := 0xA000_0003
  const MAX_BUFFER := 16 * 1024
  const NT_PREFIX: seq<Unit> := [0x5C, 0x3F, 0x3F, 0x5C]  // \??\

  /** Conversion to uint16, and the result of uint16 arithmetic. */
  function Wrap(n: nat): (u: Unit)
    ensures n < 0x10000 ==> u == n
  {
    n % 0x10000
  }

  function Low(u: Unit): seq<Byte>
  {
    [u % 256, u / 256]
  }

  function Word(b: seq<Byte>, i: nat): Unit
    requires i + 2 <= |b|
  {
    var low: int, high: int := b[i], b[i + 1];
    low + 256 * high
  }

  /** The little-endian bytes of `units`. */
  function Bytes(units: seq<Unit>): seq<Byte>
  {
    if units == [] then [] else Bytes(units[..|units| - 1]) + Low(units[|units| - 1])
  }

  lemma {:induction false} BytesAt(units: seq<Unit>, i: nat)
    ensures |Bytes(units)| == 2 * |units|
    ensures i < |units| ==> Word(Bytes(units), 2 * i) == units[i]
  {
    if units != [] {
      BytesAt(units[..|units| - 1], i);
    }
  }

  lemma {:induction false} BytesConcat(a: seq<Unit>, b: seq<Unit>)
    ensures Bytes(a + b) == Bytes(a) + Bytes(b)
  {
    if b == [] {
      assert a + b == a;
    } else {
      BytesConcat(a, b[..|b| - 1]);
      assert (a + b)[..|a + b| - 1] == a + b[..|b| - 1];
      assert Bytes(a + b) == Bytes(a) + Bytes(b[..|b| - 1]) + Low(b[|b| - 1]);
    }
  }

  function TagValue(b: seq<Byte>): nat
    requires |b| >= 4
  {
    Word(b, 0) as nat + 0x1_0000 * (Word(b, 2) as nat)
  }

  /** The sixteen bytes before the path buffer. */
  function Header(dataLength: Unit, subOffset: Unit, subLength: Unit, printOffset: Unit, printLength: Unit): seq<Byte>
  {
    [0x03, 0x00, 0x00, 0xA0, dataLength % 256, dataLength / 256, 0, 0,
     subOffset % 256, subOffset / 256, subLength % 256, subLength / 256,
     printOffset % 256, printOffset / 256, printLength % 256, printLength / 256]
  }

  /**
   * The layout of section 2.1.2.5 for a substitute name and a print name, each followed by a NUL: offsets and lengths
   * in bytes, lengths without the NUL, the print name right behind the substitute name's NUL.
   */
  function Layout(substitute: seq<Unit>, printed: seq<Unit>): seq<Byte>
  {
    var path := Bytes(substitute + [0]) + Bytes(printed + [0]);
    Header(Wrap(8 + |path|), 0, Wrap(2 * |substitute|), Wrap(2 * |substitute| + 2), Wrap(2 * |printed|)) + path
  }

  /** The loop that appends code units to a byte buffer. */
  method AppendUnits(buf: seq<Byte>, units: seq<Unit>) returns (r: seq<Byte>)
    ensures r == buf + Bytes(units)
  {
    r := buf;
    for i := 0 to |units|
      invariant r == buf + Bytes(units[..i])
    {
      assert units[..i + 1][..i] == units[..i];
      r := r + Low(units[i]);
    }
    assert units[..|units|] == units;
  }

  /** buildMountPointBuffer; a target with a NUL cannot be encoded. */
  method BuildMountPointBuffer(target: seq<Unit>) returns (r: Option<seq<Byte>>)
    ensures r == if 0 in target then None else Some(Layout(NT_PREFIX + target, target))
  {
    if 0 in target { return None; }
    var substitute := NT_PREFIX + target + [0];
    var printed := target + [0];
    var pathBuf := AppendUnits([], substitute);
    pathBuf := AppendUnits(pathBuf, printed);
    var subLen := Wrap(Wrap(|substitute| - 1) * 2);
    var printLen := Wrap(Wrap(|printed| - 1) * 2);
    var printOffset := Wrap(Wrap(|substitute|) * 2);
    var reparseDataLength := Wrap(8 + Wrap(|pathBuf|));
    assert |substitute| - 1 == |NT_PREFIX + target| && pathBuf == Bytes(substitute) + Bytes(printed);
    WrapDouble(|substitute| - 1);
    WrapDouble(|substitute|);
    WrapDouble(|printed| - 1);
    WrapSum(8, |pathBuf|);
    var buf := AppendHeader(reparseDataLength, 0, subLen, printOffset, printLen);
    return Some(buf + pathBuf);
  }

  /** Doubling in uint16 arithmetic is doubling, then conversion. */
  lemma WrapDouble(n: nat)
    ensures Wrap(Wrap(n) * 2) == Wrap(2 * n)
  {
    WrapOfSum(n / 0x10000 * 2, Wrap(n) * 2);
  }

  /** Multiples of the modulus do not matter. */
  lemma WrapOfSum(q: nat, r: nat)
    ensures Wrap(0x10000 * q + r) == Wrap(r)
  {
  }

  lemma WrapSum(m: nat, n: nat)
    ensures Wrap(m + Wrap(n)) == Wrap(m + n)
  {
    WrapOfSum(n / 0x10000, m + Wrap(n));
  }

  /** The eight AppendUint calls before the path. */
  method AppendHeader(dataLength: Unit, subOffset: Unit, subLength: Unit, printOffset: Unit, printLength: Unit)
    returns (buf: seq<Byte>)
    ensures buf == Header(dataLength, subOffset, subLength, printOffset, printLength)
  {
    buf := [];
    buf := buf + Low(0x0003) + Low(0xA000);  // the tag, as one 32-bit word
    buf := buf + Low(dataLength);
    buf := buf + Low(0);                     // Reserved
    buf := buf + Low(subOffset);
    buf := buf + Low(subLength);
    buf := buf + Low(printOffset);
    buf := buf + Low(printLength);
  }

  /** UTF16ToString: the units before the first NUL. */
  function UntilNul(units: seq<Unit>): (r: seq<Unit>)
    ensures r <= units && 0 !in r && (|r| < |units| ==> units[|r|] == 0)
  {
    if units == [] || units[0] == 0 then [] else [units[0]] + UntilNul(units[1..])
  }

  lemma {:induction false} NulFreeIsWhole(units: seq<Unit>)
    requires 0 !in units
    ensures UntilNul(units) == units
  {
    if units != [] { NulFreeIsWhole(units[1..]); }
  }

  /** The units of a byte string; a last odd byte is dropped. */
  function Units(b: seq<Byte>): seq<Unit>
  {
    seq(|b| / 2, i requires 0 <= i < |b| / 2 => Word(b, 2 * i))
  }

  /** The name at this offset and of this length of the path buffer, up to the first NUL. */
  function NameAt(path: seq<Byte>, offset: nat, length: nat): Option<seq<Unit>>
  {
    if offset + length > |path| then None else Some(UntilNul(Units(path[offset..offset + length])))
  }

  /** The print name a mount point buffer holds. */
  function Decode(buf: seq<Byte>): Option<seq<Unit>>
  {
    if |buf| < 16 || TagValue(buf) != MOUNT_POINT_TAG then None
    else NameAt(buf[16..], Word(buf, 12), Word(buf, 14))
  }

  /**
   * The parsing half of readJunctionTarget. Its bounds check is made in `int` but its slice in `uint16`; for any buffer
   * of up to 16 KiB every index and slice is in range and the 16-bit sum does not wrap.
   */
  method ParseMountPointBuffer(buf: seq<Byte>) returns (r: Option<seq<Unit>>)
    requires |buf| <= MAX_BUFFER
    ensures r == Decode(buf)
    ensures r.Some? <==>
      |buf| >= 16 && buf[0..4] == [0x03, 0x00, 0x00, 0xA0] && 16 + Word(buf, 12) + Word(buf, 14) <= |buf|
  {
    if |buf| < 16 { return None; }
    TagBytes(buf);
    if TagValue(buf[0..4]) != MOUNT_POINT_TAG { return None; }
    var printOffset, printLen := Word(buf, 12), Word(buf, 14);
    var pathBuf := buf[16..];
    if printOffset + printLen > |pathBuf| { return None; }
    var end := Wrap(printOffset + printLen);
    var printBytes := pathBuf[printOffset..end];
    var u16: seq<Unit> := [];
    for i := 0 to |printBytes| / 2
      invariant u16 == Units(printBytes)[..i]
    {
      u16 := u16 + [Word(printBytes[i * 2..i * 2 + 2], 0)];
    }
    assert Units(printBytes)[..|printBytes| / 2] == Units(printBytes);
    return Some(UntilNul(u16));
  }

  lemma TagBytes(buf: seq<Byte>)
    requires |buf| >= 4
    ensures TagValue(buf) == MOUNT_POINT_TAG <==> buf[0..4] == [0x03, 0x00, 0x00, 0xA0]
  {
    var b0: int, b1: int, b2: int, b3: int := buf[0], buf[1], buf[2], buf[3];
    assert TagValue(buf) == b0 + 0x100 * b1 + 0x1_0000 * b2 + 0x100_0000 * b3;
  }

  /** What is read back of a stored buffer: nothing when it does not fit the 16 KiB the device call is given. */
  function ReadBack(stored: seq<Byte>): Option<seq<Unit>>
  {
    if |stored| <= MAX_BUFFER then Decode(stored) else None
  }

  /** The device call, then the parser. */
  method ReadJunctionTarget(stored: seq<Byte>) returns (r: Option<seq<Unit>>)
    ensures r == ReadBack(stored)
  {
    if |stored| > MAX_BUFFER { return None; }
    r := ParseMountPointBuffer(stored);
  }

  predicate SumFits(offset: Unit, length: Unit)
  {
    Wrap(offset + length) == offset + length
  }

  /** The 16-bit slice bound is sound for a path buffer of a given size exactly when the size itself fits 16 bits. */
  lemma SliceWrapsExactlyWhen(size: nat)
    ensures size < 0x10000 <==>
      forall offset: Unit, length: Unit :: offset + length <= size ==> SumFits(offset, length)
  {
    if size >= 0x10000 {
      var offset: Unit, length: Unit := 0xFFFF, 1;
      assert offset + length <= size && !SumFits(offset, length);
    }
  }

  /** The header's words can be read back. */
  lemma HeaderWords(dataLength: Unit, subOffset: Unit, subLength: Unit, printOffset: Unit, printLength: Unit,
      path: seq<Byte>)
    ensures var buf := Header(dataLength, subOffset, subLength, printOffset, printLength) + path;
      && |buf| == 16 + |path| && buf[16..] == path
      && TagValue(buf) == MOUNT_POINT_TAG && Word(buf, 4) == dataLength
      && Word(buf, 8) == subOffset && Word(buf, 10) == subLength
      && Word(buf, 12) == printOffset && Word(buf, 14) == printLength
  {
  }

  lemma LayoutFields(substitute: seq<Unit>, printed: seq<Unit>)
    ensures var buf := Layout(substitute, printed);
      && |buf| == 20 + 2 * |substitute| + 2 * |printed|
      && TagValue(buf) == MOUNT_POINT_TAG
      && Word(buf, 4) == Wrap(|buf| - 8)
      && Word(buf, 8) == 0 && Word(buf, 10) == Wrap(2 * |substitute|)
      && Word(buf, 12) == Wrap(2 * |substitute| + 2)
      && Word(buf, 14) == Wrap(2 * |printed|)
      && buf[16..] == Bytes(substitute + [0]) + Bytes(printed + [0])
  {
    BytesAt(substitute + [0], 0);
    BytesAt(printed + [0], 0);
    var path := Bytes(substitute + [0]) + Bytes(printed + [0]);
    HeaderWords(Wrap(8 + |path|), 0, Wrap(2 * |substitute|), Wrap(2 * |substitute| + 2), Wrap(2 * |printed|), path);
    assert |Layout(substitute, printed)| - 8 == 8 + |path|;
  }

  /**
   * Round trip: reading back the buffer built for a NUL-free target of n units gives the target exactly when
   * 4n + 28 <= 16384, that is n <= 4089; any longer target is rejected, never misread.
   */
  lemma RoundTripExactlyWhen(target: seq<Unit>)
    requires 0 !in target
    ensures var buf := Layout(NT_PREFIX + target, target);
      && |buf| == 4 * |target| + 28
      && ReadBack(buf) == (if |target| <= 4089 then Some(target) else None)
  {
    LayoutFields(NT_PREFIX + target, target);
    if |target| <= 4089 { LayoutDecodes(NT_PREFIX + target, target); }
  }

  lemma LayoutDecodes(substitute: seq<Unit>, target: seq<Unit>)
    requires 0 !in target && 20 + 2 * |substitute| + 2 * |target| <= MAX_BUFFER
    ensures Decode(Layout(substitute, target)) == Some(target)
  {
    LayoutFields(substitute, target);
    BytesLength(substitute + [0]);
    PrintNameInPath(Bytes(substitute + [0]), target);
    UnitsOfBytes(target);
    NulFreeIsWhole(target);
  }

  /** Where the print name lies in the path buffer: right behind the substitute name and its NUL. */
  lemma PrintNameInPath(substituteBytes: seq<Byte>, target: seq<Unit>)
    ensures var path, offset := substituteBytes + Bytes(target + [0]), |substituteBytes|;
      |path| == offset + 2 * |target| + 2 && path[offset..offset + 2 * |target|] == Bytes(target)
  {
    BytesLength(target);
    BytesLength([0]);
    BytesConcat(target, [0]);
    MiddleSlice(substituteBytes, Bytes(target), Bytes([0]));
  }

  lemma BytesLength(units: seq<Unit>)
    ensures |Bytes(units)| == 2 * |units|
  {
    BytesAt(units, 0);
  }

  lemma MiddleSlice(a: seq<Byte>, b: seq<Byte>, c: seq<Byte>)
    ensures (a + (b + c))[|a|..|a| + |b|] == b
  {
  }

  lemma UnitsOfBytes(units: seq<Unit>)
    ensures Units(Bytes(units)) == units
  {
    BytesAt(units, 0);
    forall i | 0 <= i < |units| ensures Units(Bytes(units))[i] == units[i] { BytesAt(units, i); }
  }

  /** Windows reads the substitute name, which lies first: the target in the kernel's notation, \??\ in front. */
  lemma SubstituteNameIsTarget(target: seq<Unit>)
    requires |target| <= 4089 && 0 !in target
    ensures var buf := Layout(NT_PREFIX + target, target);
      |buf| >= 16 && NameAt(buf[16..], Word(buf, 8), Word(buf, 10)) == Some([0x5C, 0x3F, 0x3F, 0x5C] + target)
  {
    LayoutFields(NT_PREFIX + target, target);
    FirstName(NT_PREFIX + target, Bytes(target + [0]));
  }

  lemma FirstName(name: seq<Unit>, rest: seq<Byte>)
    requires 0 !in name
    ensures NameAt(Bytes(name + [0]) + rest, 0, 2 * |name|) == Some(name)
  {
    BytesLength(name);
    BytesConcat(name, [0]);
    var path := Bytes(name + [0]) + rest;
    assert path[0..2 * |name|] == Bytes(name);
    UnitsOfBytes(name);
    NulFreeIsWhole(name);
  }

  /** Each name is followed by a NUL, and the reserved bytes are zero. */
  lemma NamesEndInNul(target: seq<Unit>)
    requires |target| <= 4089
    ensures var buf := Layout(NT_PREFIX + target, target);
      && |buf| == 28 + 4 * |target| && buf[..4] == [0x03, 0x00, 0x00, 0xA0] && Word(buf, 6) == 0
      && Word(buf, 16 + 2 * |NT_PREFIX + target|) == 0 && Word(buf, |buf| - 2) == 0
  {
    var substitute := NT_PREFIX + target;
    LayoutFields(substitute, target);
    BytesAt(substitute + [0], |substitute|);
    BytesAt(target + [0], |target|);
    var buf := Layout(substitute, target);
    var first, second := Bytes(substitute + [0]), Bytes(target + [0]);
    assert buf[16..] == first + second;
    assert Word(first + second, 2 * |substitute|) == Word(first, 2 * |substitute|);
    assert Word(first + second, |first| + 2 * |target|) == Word(second, 2 * |target|);
  }

  /** The header agrees with the standard as long as the whole buffer does: no field has wrapped. */
  lemma HeaderDoesNotWrap(target: seq<Unit>)
    requires |target| <= 4089
    ensures var buf := Layout(NT_PREFIX + target, target);
      && Word(buf, 4) == |buf| - 8                                // ReparseDataLength
      && Word(buf, 8) == 0 && Word(buf, 10) == 2 * |target| + 8   // SubstituteName
      && Word(buf, 12) == Word(buf, 10) + 2                       // PrintName follows the NUL
      && Word(buf, 12) + Word(buf, 14) + 2 == |buf| - 16          // and ends, with its NUL, the path buffer
  {
    LayoutFields(NT_PREFIX + target, target);
  }
}
