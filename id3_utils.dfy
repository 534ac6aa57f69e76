/**
 * Binary primitives shared by the ID3v2.3 header, the frame splitter and the
 * frame decoders (Source/ID3Utils.swift).
 *
 * Bytes are modelled as integers in 0..255 and Swift's UInt32 as integers in
 * 0..2^32-1, so that every overflow the Swift code would trap on shows up as
 * a proof obligation on a subset type.
 */
module ID3Utils {
  import opened Wrappers

  type Byte = b: int | 0 <= b < 256
  type UInt32 = x: int | 0 <= x < 0x1_0000_0000

  const UINT32_MODULUS: int := 0x1_0000_0000

  /** The text encodings an encoding byte can select. */
  datatype Encoding = Latin1 | UTF8 | UTF16

  /**
   * Foundation's `String(bytes:encoding:)`: a decoding that may fail. Its
   * behaviour is not part of this model, so every operation that decodes
   * text takes it as a parameter and promises results in terms of it.
   */
  type Decoder = (Encoding, seq<Byte>) -> Option<string>

  function Min(a: int, b: int): (m: int)
  {
    if a <= b then a else b
  }

  // ---------------------------------------------------------------------
  // toString: one character per byte
  // ---------------------------------------------------------------------

  /** The string holding the character with code point b for each byte b. */
  function AsString(bytes: seq<Byte>): (s: string)
    ensures |s| == |bytes|
    ensures forall i :: 0 <= i < |bytes| ==> s[i] == bytes[i] as char
  {
    seq(|bytes|, i requires 0 <= i < |bytes| => bytes[i] as char)
  }

  /** `toString` appends one character per byte, in order. */
  method ToString(bytes: seq<Byte>) returns (s: string)
    ensures |s| == |bytes|
    ensures forall i :: 0 <= i < |bytes| ==> s[i] as int == bytes[i]
    ensures s == AsString(bytes)
  {
    s := "";
    for i := 0 to |bytes|
      invariant |s| == i
      invariant forall k :: 0 <= k < i ==> s[k] == bytes[k] as char
    {
      s := s + [bytes[i] as char];
    }
  }

  /** Distinct byte sequences give distinct strings. */
  lemma AsStringInjective(a: seq<Byte>, b: seq<Byte>)
    requires AsString(a) == AsString(b)
    ensures a == b
  {
    assert |a| == |b|;
    forall i | 0 <= i < |a| ensures a[i] == b[i] {
      assert AsString(a)[i] == AsString(b)[i];
    }
  }

  // ---------------------------------------------------------------------
  // Swift's UInt32 shift
  // ---------------------------------------------------------------------

  function Pow2(k: nat): (r: nat)
    ensures r >= 1
  {
    if k == 0 then 1 else 2 * Pow2(k - 1)
  }

  lemma Pow2Values()
    ensures Pow2(7) == 0x80 && Pow2(8) == 0x100 && Pow2(14) == 0x4000
    ensures Pow2(16) == 0x1_0000 && Pow2(21) == 0x20_0000 && Pow2(24) == 0x100_0000
  {
    assert Pow2(4) == 16;
    assert Pow2(7) == 0x80;
    assert Pow2(8) == 0x100;
    assert Pow2(12) == 0x1000;
    assert Pow2(14) == 0x4000;
    assert Pow2(16) == 0x1_0000;
    assert Pow2(20) == 0x10_0000;
    assert Pow2(21) == 0x20_0000;
    assert Pow2(24) == 0x100_0000;
  }

  /**
   * `UInt32(x) << k`: x times 2^k, with the bits shifted past bit 31
   * discarded (an unsigned shift never traps).
   */
  function ShiftLeft(x: UInt32, k: nat): (r: UInt32)
  {
    (x * Pow2(k)) % UINT32_MODULUS
  }

  /** The shifts of a byte that the two size decoders use. */
  lemma ShiftLeftByte(b: Byte)
    ensures ShiftLeft(b, 7) == b as int * 0x80 && ShiftLeft(b, 8) == b as int * 0x100
    ensures ShiftLeft(b, 14) == b as int * 0x4000 && ShiftLeft(b, 16) == b as int * 0x1_0000
    ensures ShiftLeft(b, 21) == b as int * 0x20_0000 && ShiftLeft(b, 24) == b as int * 0x100_0000
  {
    Pow2Values();
  }

  // ---------------------------------------------------------------------
  // tagSize: the 28-bit size of the tag header
  // ---------------------------------------------------------------------

  /**
   * `tagSize([UInt8])`: nil unless there are exactly four bytes, else the
   * bytes shifted by 21, 14, 7 and 0 and added with checked UInt32 additions.
   * No shift of a byte loses bits (ShiftLeftByte), so each is written as a
   * multiplication; TagSizeShifts restates the result with the shifts.
   * The code does not mask the most significant bit of each byte, so bytes
   * of 0x80 and above contribute their full value.
   */
  function TagSize(bytes: seq<Byte>): (r: Option<UInt32>)
    ensures r.Some? <==> |bytes| == 4
    ensures r.Some? ==>
      r.value == bytes[0] as int * 0x20_0000 + bytes[1] as int * 0x4000 + bytes[2] as int * 0x80 + bytes[3] as int
  {
    if |bytes| != 4 then None
    else
      var first: UInt32 := bytes[0] as int * 0x20_0000 + bytes[1] as int * 0x4000;
      var second: UInt32 := bytes[2] as int * 0x80 + bytes[3] as int;
      Some(first + second)
  }

  /** `tagSize(_:_:_:_:)`: the array form applied to the four bytes, unwrapped. */
  function TagSizeOf(first: Byte, second: Byte, third: Byte, fourth: Byte): (r: UInt32)
    ensures r == first as int * 0x20_0000 + second as int * 0x4000 + third as int * 0x80 + fourth as int
  {
    TagSize([first, second, third, fourth]).value
  }

  /** The tag size is the sum of the shifted bytes, as the source writes it. */
  lemma TagSizeShifts(bytes: seq<Byte>)
    requires |bytes| == 4
    ensures TagSize(bytes).value
         == ShiftLeft(bytes[0], 21) + ShiftLeft(bytes[1], 14) + ShiftLeft(bytes[2], 7) + bytes[3] as int
  {
    ShiftLeftByte(bytes[0]);
    ShiftLeftByte(bytes[1]);
    ShiftLeftByte(bytes[2]);
  }

  /** The four 7-bit groups of n, most significant first. */
  function Synchsafe(n: nat): (bytes: seq<Byte>)
    requires n < 0x1000_0000
    ensures |bytes| == 4
    ensures forall i :: 0 <= i < 4 ==> bytes[i] < 0x80
  {
    [n / 0x20_0000, (n / 0x4000) % 0x80, (n / 0x80) % 0x80, n % 0x80]
  }

  /** With every byte below 0x80, the tag size fits in 28 bits. */
  lemma TagSizeBound(bytes: seq<Byte>)
    requires |bytes| == 4
    requires forall i :: 0 <= i < 4 ==> bytes[i] < 0x80
    ensures TagSize(bytes).value < 0x1000_0000
  {
  }

  /** Decoding the four 7-bit groups of n gives back n. */
  lemma SynchsafeRoundTrip(n: nat)
    requires n < 0x1000_0000
    ensures TagSize(Synchsafe(n)) == Some(n)
  {
    var b := Synchsafe(n);
    var q1 := n / 0x80;
    var q2 := q1 / 0x80;
    assert n == q1 * 0x80 + n % 0x80;
    assert q1 == q2 * 0x80 + q1 % 0x80;
    assert q2 == (q2 / 0x80) * 0x80 + q2 % 0x80;
    assert n / 0x4000 == q2;
    assert n / 0x20_0000 == q2 / 0x80;
  }

  /** On 7-bit bytes the tag size is injective: re-encoding gives the bytes back. */
  lemma TagSizeInjective(bytes: seq<Byte>)
    requires |bytes| == 4
    requires forall i :: 0 <= i < 4 ==> bytes[i] < 0x80
    ensures Synchsafe(TagSize(bytes).value) == bytes
  {
    var n := TagSize(bytes).value;
    assert n == ((bytes[0] as int * 0x80 + bytes[1] as int) * 0x80 + bytes[2] as int) * 0x80 + bytes[3] as int;
    assert n % 0x80 == bytes[3] && n / 0x80 == (bytes[0] as int * 0x80 + bytes[1] as int) * 0x80 + bytes[2] as int;
    var q1 := n / 0x80;
    assert q1 % 0x80 == bytes[2] && q1 / 0x80 == bytes[0] as int * 0x80 + bytes[1] as int;
    var q2 := q1 / 0x80;
    assert q2 % 0x80 == bytes[1] && q2 / 0x80 == bytes[0];
    assert n / 0x4000 == q2;
    assert n / 0x20_0000 == q2 / 0x80;
  }

  // ---------------------------------------------------------------------
  // frameSize: the plain big-endian 32-bit frame size
  // ---------------------------------------------------------------------

  /**
   * `frameSize([UInt8])`: indexes bytes 0..3, so fewer than four bytes trap;
   * further bytes are ignored. Always non-nil. As in TagSize, the shifts are
   * written as multiplications; FrameSizeShifts restates them.
   */
  function FrameSize(bytes: seq<Byte>): (r: UInt32)
    requires |bytes| >= 4
    ensures r == bytes[0] as int * 0x100_0000 + bytes[1] as int * 0x1_0000 + bytes[2] as int * 0x100 + bytes[3] as int
  {
    var first: UInt32 := bytes[0] as int * 0x100_0000 + bytes[1] as int * 0x1_0000;
    var second: UInt32 := bytes[2] as int * 0x100 + bytes[3] as int;
    first + second
  }

  /** `frameSize(_:_:_:_:)`: the array form applied to the four bytes, unwrapped. */
  function FrameSizeOf(first: Byte, second: Byte, third: Byte, fourth: Byte): (r: UInt32)
    ensures r == first as int * 0x100_0000 + second as int * 0x1_0000 + third as int * 0x100 + fourth as int
  {
    FrameSize([first, second, third, fourth])
  }

  /** The frame size is the sum of the shifted bytes, as the source writes it. */
  lemma FrameSizeShifts(bytes: seq<Byte>)
    requires |bytes| >= 4
    ensures FrameSize(bytes)
         == ShiftLeft(bytes[0], 24) + ShiftLeft(bytes[1], 16) + ShiftLeft(bytes[2], 8) + bytes[3] as int
  {
    ShiftLeftByte(bytes[0]);
    ShiftLeftByte(bytes[1]);
    ShiftLeftByte(bytes[2]);
  }

  /** The four big-endian bytes of n. */
  function BigEndian(n: UInt32): (bytes: seq<Byte>)
    ensures |bytes| == 4
  {
    [n / 0x100_0000, (n / 0x1_0000) % 0x100, (n / 0x100) % 0x100, n % 0x100]
  }

  /** Only the first four bytes matter. */
  lemma FrameSizeReadsFourBytes(bytes: seq<Byte>)
    requires |bytes| >= 4
    ensures FrameSize(bytes) == FrameSize(bytes[..4])
  {
  }

  /** Decoding the big-endian bytes of n gives back n. */
  lemma FrameSizeRoundTrip(n: UInt32)
    ensures FrameSize(BigEndian(n)) == n
  {
    var q1 := n / 0x100;
    var q2 := q1 / 0x100;
    assert n == q1 * 0x100 + n % 0x100;
    assert q1 == q2 * 0x100 + q1 % 0x100;
    assert q2 == (q2 / 0x100) * 0x100 + q2 % 0x100;
    assert n / 0x1_0000 == q2;
    assert n / 0x100_0000 == q2 / 0x100;
  }

  /** Only four zero bytes decode to a zero frame size. */
  lemma FrameSizeZero(bytes: seq<Byte>)
    requires |bytes| >= 4
    ensures FrameSize(bytes) == 0 <==> bytes[0] == bytes[1] == bytes[2] == bytes[3] == 0
  {
  }

  // ---------------------------------------------------------------------
  // encodingFrom
  // ---------------------------------------------------------------------

  /** 0 selects Latin-1, 3 selects UTF-8, every other byte UTF-16. */
  function EncodingFrom(b: Byte): (e: Encoding)
    ensures e == Latin1 <==> b == 0
    ensures e == UTF8 <==> b == 3
    ensures e == UTF16 <==> b != 0 && b != 3
  {
    if b == 0 then Latin1
    else if b == 3 then UTF8
    else UTF16
  }

  // ---------------------------------------------------------------------
  // Walking a byte slice
  // ---------------------------------------------------------------------

  /**
   * `nextBytes(&content, n)`: pops up to n bytes off the front of the slice.
   * `rest` is the slice after the call.
   */
  method NextBytes(content: seq<Byte>, n: nat) returns (taken: seq<Byte>, rest: seq<Byte>)
    ensures |taken| == Min(n, |content|)
    ensures taken + rest == content
    ensures taken == content[..Min(n, |content|)] && rest == content[Min(n, |content|)..]
  {
    taken, rest := [], content;
    var i := 0;
    while i < n && rest != []
      invariant taken + rest == content
      invariant i == |taken| <= n
    {
      taken := taken + [rest[0]];
      rest := rest[1..];
      i := i + 1;
    }
  }

  /** The length of the leading run of zero bytes. */
  function LeadingZeros(s: seq<Byte>): (k: nat)
    ensures k <= |s|
    ensures forall i :: 0 <= i < k ==> s[i] == 0
    ensures k == |s| || s[k] != 0
  {
    if |s| > 0 && s[0] == 0 then 1 + LeadingZeros(s[1..]) else 0
  }

  /** `skipZeroBytes(&content)`: drops the leading run of zero bytes. */
  method SkipZeroBytes(content: seq<Byte>) returns (rest: seq<Byte>)
    ensures rest == content[LeadingZeros(content)..]
    ensures rest == [] || rest[0] != 0
  {
    rest := content;
    while rest != [] && rest[0] == 0
      invariant |rest| <= |content| && rest == content[|content| - |rest|..]
      invariant forall i :: 0 <= i < |content| - |rest| ==> content[i] == 0
    {
      rest := rest[1..];
    }
  }

  /** Skipping twice skips nothing more. */
  lemma SkipZeroBytesIdempotent(s: seq<Byte>)
    ensures LeadingZeros(s[LeadingZeros(s)..]) == 0
  {
  }

  /** A run of zeros followed by a non-zero byte (or nothing) is the leading run. */
  lemma {:induction false} LeadingZerosOf(zeros: seq<Byte>, rest: seq<Byte>)
    requires forall i :: 0 <= i < |zeros| ==> zeros[i] == 0
    requires rest == [] || rest[0] != 0
    ensures LeadingZeros(zeros + rest) == |zeros|
    decreases |zeros|
  {
    if zeros != [] {
      assert (zeros + rest)[1..] == zeros[1..] + rest;
      LeadingZerosOf(zeros[1..], rest);
    } else {
      assert zeros + rest == rest;
    }
  }

  /** The length of the leading run of non-zero bytes. */
  function ZeroFreeRun(s: seq<Byte>): (k: nat)
    ensures k <= |s|
    ensures forall i :: 0 <= i < k ==> s[i] != 0
    ensures k == |s| || s[k] == 0
  {
    if |s| > 0 && s[0] != 0 then 1 + ZeroFreeRun(s[1..]) else 0
  }

  /** A zero-free run followed by a zero byte (or nothing) is the leading run. */
  lemma {:induction false} ZeroFreeRunOf(run: seq<Byte>, rest: seq<Byte>)
    requires forall i :: 0 <= i < |run| ==> run[i] != 0
    requires rest == [] || rest[0] == 0
    ensures ZeroFreeRun(run + rest) == |run|
    decreases |run|
  {
    if run != [] {
      assert (run + rest)[1..] == run[1..] + rest;
      ZeroFreeRunOf(run[1..], rest);
    } else {
      assert run + rest == rest;
    }
  }

  /**
   * The loop the COMM, APIC and CHAP decoders each write out: while the
   * slice is non-empty and its first byte is not zero, pop that byte into a
   * buffer. It moves the zero-free prefix of the slice into the buffer.
   */
  method PopUntilZero(content: seq<Byte>) returns (run: seq<Byte>, rest: seq<Byte>)
    ensures run == content[..ZeroFreeRun(content)]
    ensures rest == content[ZeroFreeRun(content)..]
  {
    run, rest := [], content;
    while rest != [] && rest[0] != 0
      invariant run + rest == content
      invariant forall i :: 0 <= i < |run| ==> run[i] != 0
    {
      run := run + [rest[0]];
      rest := rest[1..];
    }
    assert content[..|run|] == run;
  }

  /**
   * The `forEach` closure the APIC and CHAP decoders use to collect what is
   * left of the slice: every byte is copied, in order.
   */
  method CopyBytes(content: seq<Byte>) returns (buffer: seq<Byte>)
    ensures buffer == content
  {
    buffer := [];
    for i := 0 to |content|
      invariant buffer == content[..i]
    {
      buffer := buffer + [content[i]];
    }
  }

  /** A slice cut at n and put back together. */
  lemma TakeDrop(s: seq<Byte>, n: nat)
    requires n <= |s|
    ensures s[..n] + s[n..] == s
  {
  }

  /** Cutting a concatenation at the length of its first part gives both parts back. */
  lemma CutAt(a: seq<Byte>, b: seq<Byte>)
    ensures (a + b)[..|a|] == a && (a + b)[|a|..] == b
  {
  }

  /** Dropping a then b bytes drops a + b bytes. */
  lemma DropDrop(s: seq<Byte>, a: nat, b: nat)
    requires a <= |s| && b <= |s| - a
    ensures s[a..][b..] == s[a + b..]
  {
  }

  /** `dropFirst()`: drops one byte if there is one. */
  function DropFirst(s: seq<Byte>): (r: seq<Byte>)
    ensures r == s[Min(1, |s|)..]
  {
    if |s| == 0 then [] else s[1..]
  }
}
