/** WebSocket frame headers: parseHeader and readHeaderZeroAlloc of pkg/websocket/websocket.go, and the
    encoding of section 5.2 of RFC 6455 that ws.WriteHeader prints. */
module WsHeader {
  import opened Bytes

  /** ws.Header.  `length` is the source's int64; an unmasked header has the zero mask. */
  datatype Header = Header(fin: bool, rsv: int, op: int, masked: bool, length: int, mask: seq<byte>)

  const OP_CONTINUATION := 0
  const OP_TEXT := 1
  const OP_BINARY := 2
  const OP_CLOSE := 8
  const OP_PING := 9
  const OP_PONG := 10

  const NO_MASK: seq<byte> := [0, 0, 0, 0]

  /** Section 5.5 of RFC 6455: the most significant of the four bits. */
  predicate IsControl(op: int)
  {
    op >= 8
  }

  function BigEndian(s: seq<byte>): nat
  {
    if s == [] then 0 else BigEndian(s[..|s| - 1]) * 256 + s[|s| - 1]
  }

  /** The Go conversion int64(uint64). */
  function ToInt64(n: nat): int
  {
    if n > MAX_INT then n - 0x1_0000_0000_0000_0000 else n
  }

  /** parseHeader's three outcomes; the first two both come with headerBytes == 0. */
  datatype HeaderParse = NeedMore | BadControl | Parsed(h: Header, size: nat)

  function HeaderSize(b1: byte): nat
  {
    2 + (if b1 % 128 == 126 then 2 else if b1 % 128 == 127 then 8 else 0) + (if b1 >= 128 then 4 else 0)
  }

  /** The header at the front of b. */
  function HeaderAt(b: seq<byte>): (r: HeaderParse)
    ensures r.Parsed? ==> 2 <= r.size <= 14 && r.size <= |b| && |r.h.mask| == 4 && 0 <= r.h.op < 16
    ensures r.Parsed? ==> (IsControl(r.h.op) ==> 0 <= r.h.length <= 125)
  {
    if |b| < 2 then NeedMore
    else if IsControl(b[0] % 16) && b[1] % 128 > 125 then BadControl
    else
      var n := HeaderSize(b[1]);
      if |b| < n then NeedMore
      else
        var code := b[1] % 128;
        var length := if code == 126 then BigEndian(b[2..4])
                      else if code == 127 then ToInt64(BigEndian(b[2..10]))
                      else code;
        var masked := b[1] >= 128;
        var mask := if masked then b[n - 4..n] else NO_MASK;
        Parsed(Header(b[0] >= 128, b[0] / 16 % 8, b[0] % 16, masked, length, mask), n)
  }

  /** parseHeader, assignment by assignment; bit masks and shifts are written as division and remainder. */
  method ParseHeader(b: seq<byte>) returns (h: Header, headerBytes: nat, failed: bool)
    ensures HeaderAt(b) == if failed then BadControl else if headerBytes == 0 then NeedMore else Parsed(h, headerBytes)
    ensures failed ==> headerBytes == 0
  {
    h := Header(false, 0, 0, false, 0, NO_MASK);
    headerBytes, failed := 0, false;
    if |b| < 2 {
      return;
    }
    h := h.(fin := b[0] >= 128);
    h := h.(rsv := b[0] / 16 % 8);
    h := h.(op := b[0] % 16);
    h := h.(masked := b[1] >= 128);
    var length := b[1] % 128;
    if IsControl(h.op) && length > 125 {
      failed := true;
      return;
    }
    var size := 2;
    if length == 126 {
      size := 4;
    } else if length == 127 {
      size := 10;
    } else {
      h := h.(length := length);
    }
    if h.masked {
      size := size + 4;
    }
    if |b| < size {
      return;
    }
    if length == 126 {
      h := h.(length := BigEndian(b[2..4]));
    } else if length == 127 {
      h := h.(length := ToInt64(BigEndian(b[2..10])));
    }
    if h.masked {
      h := h.(mask := b[size - 4..size]);
    }
    headerBytes := size;
  }

  // ----- stability

  /** A header, once parsed or refused, is the same however many bytes follow, and it is read from its own
      bytes alone; in particular the first 14 bytes are enough. */
  lemma HeaderIsLocal(a: seq<byte>, b: seq<byte>)
    requires HeaderAt(a) != NeedMore
    requires Agree(a, b, if HeaderAt(a).Parsed? then HeaderAt(a).size else 2)
    ensures HeaderAt(b) == HeaderAt(a)
  {
    if HeaderAt(a).Parsed? {
      var n := HeaderAt(a).size;
      assert a[2..n] == b[2..n];
      assert n >= 10 ==> a[2..10] == b[2..10];
      assert n >= 4 ==> a[2..4] == b[2..4];
      assert n >= 6 ==> a[n - 4..n] == b[n - 4..n];
    }
  }

  lemma PeekIsEnough(b: seq<byte>, k: nat)
    requires k <= |b| && (k == |b| || k >= 14)
    ensures HeaderAt(b[..k]) == HeaderAt(b)
  {
    if HeaderAt(b) != NeedMore {
      HeaderIsLocal(b, b[..k]);
    } else {
      assert k == |b| ==> b[..k] == b;
    }
  }

  // ----- the encoding of section 5.2 of RFC 6455

  function BytesOf(n: nat, k: nat): (s: seq<byte>)
    ensures |s| == k
  {
    if k == 0 then [] else BytesOf(n / 256, k - 1) + [n % 256]
  }

  function Pow256(k: nat): nat
  {
    if k == 0 then 1 else 256 * Pow256(k - 1)
  }

  lemma {:induction false} BigEndianRoundTrip(n: nat, k: nat)
    requires n < Pow256(k)
    ensures BigEndian(BytesOf(n, k)) == n
    decreases k
  {
    if k > 0 {
      BigEndianRoundTrip(n / 256, k - 1);
      assert BytesOf(n, k)[..k - 1] == BytesOf(n / 256, k - 1);
    }
  }

  lemma {:induction false} BytesOfBigEndian(s: seq<byte>)
    ensures BytesOf(BigEndian(s), |s|) == s
    decreases |s|
  {
    if s != [] {
      BytesOfBigEndian(s[..|s| - 1]);
      assert s == s[..|s| - 1] + [s[|s| - 1]];
    }
  }

  /** What section 5.2 allows: lengths below 2^63, control frames of at most 125 bytes. */
  predicate WellFormed(h: Header)
  {
    && 0 <= h.rsv < 8 && 0 <= h.op < 16
    && 0 <= h.length <= MAX_INT
    && |h.mask| == 4 && (!h.masked ==> h.mask == NO_MASK)
    && (IsControl(h.op) ==> h.length <= 125)
  }

  function LengthCode(length: nat): byte
  {
    if length <= 125 then length else if length <= 65535 then 126 else 127
  }

  /** The extended length field. */
  function ExtendedLength(length: nat): seq<byte>
  {
    if length <= 125 then [] else if length <= 65535 then BytesOf(length, 2) else BytesOf(length, 8)
  }

  function FlagByte(h: Header): byte
    requires WellFormed(h)
  {
    (if h.fin then 128 else 0) + h.rsv * 16 + h.op
  }

  function LengthByte(h: Header): byte
    requires WellFormed(h)
  {
    (if h.masked then 128 else 0) + LengthCode(h.length)
  }

  function MaskField(h: Header): seq<byte>
  {
    if h.masked then h.mask else []
  }

  function EncodeHeader(h: Header): seq<byte>
    requires WellFormed(h)
  {
    [FlagByte(h), LengthByte(h)] + ExtendedLength(h.length) + MaskField(h)
  }

  /** The two fixed bytes and the two fields determine what is parsed. */
  lemma ParsedFields(b: seq<byte>, h: Header, m: nat, n: nat)
    requires WellFormed(h) && 2 <= m <= n <= |b| && n == HeaderSize(LengthByte(h)) && m + |MaskField(h)| == n
    requires b[0] == FlagByte(h) && b[1] == LengthByte(h)
    requires b[2..m] == ExtendedLength(h.length) && b[m..n] == MaskField(h)
    ensures HeaderAt(b) == Parsed(h, n)
  {
    Powers();
    if 125 < h.length <= 65535 {
      BigEndianRoundTrip(h.length, 2);
    } else if 65535 < h.length {
      BigEndianRoundTrip(h.length, 8);
    }
    hide BytesOf, BigEndian, Pow256;
    assert b[0] / 16 == (if h.fin then 8 else 0) + h.rsv;
  }

  lemma Powers()
    ensures Pow256(2) == 65536 && Pow256(8) == 0x1_0000_0000_0000_0000
  {
    assert Pow256(4) == 0x1_0000_0000;
  }

  /** parseHeader reads back every header that can be written, whatever follows. */
  lemma HeaderRoundTrip(h: Header, rest: seq<byte>)
    requires WellFormed(h)
    ensures HeaderAt(EncodeHeader(h) + rest) == Parsed(h, |EncodeHeader(h)|)
  {
    var b := EncodeHeader(h) + rest;
    var m := 2 + |ExtendedLength(h.length)|;
    var n := m + |MaskField(h)|;
    assert b[2..m] == ExtendedLength(h.length) && b[m..n] == MaskField(h);
    ParsedFields(b, h, m, n);
  }

  /** The length is written in the fewest bytes, as section 5.2 requires of senders. */
  predicate Minimal(b: seq<byte>)
    requires HeaderAt(b).Parsed? && HeaderAt(b).h.length >= 0
  {
    b[1] % 128 == LengthCode(HeaderAt(b).h.length)
  }

  /** A parsed header is the encoding of what was parsed exactly when its length is written minimally;
      parseHeader itself also takes longer forms. */
  lemma ParsedIsEncodedIff(b: seq<byte>)
    requires HeaderAt(b).Parsed? && HeaderAt(b).h.length >= 0
    ensures WellFormed(HeaderAt(b).h)
    ensures b[..HeaderAt(b).size] == EncodeHeader(HeaderAt(b).h) <==> Minimal(b)
  {
    hide EncodeHeader, HeaderAt, Minimal;
    ParsedIsWellFormed(b);
    if Minimal(b) {
      MinimalIsEncoded(b);
    } else {
      LongerIsNotEncoded(b);
    }
  }

  lemma ParsedIsWellFormed(b: seq<byte>)
    requires HeaderAt(b).Parsed? && HeaderAt(b).h.length >= 0
    ensures WellFormed(HeaderAt(b).h)
  {
    LengthIsInt64(b);
  }

  lemma LongerIsNotEncoded(b: seq<byte>)
    requires HeaderAt(b).Parsed? && HeaderAt(b).h.length >= 0 && WellFormed(HeaderAt(b).h) && !Minimal(b)
    ensures b[..HeaderAt(b).size] != EncodeHeader(HeaderAt(b).h)
  {
    hide BytesOf, BigEndian, ExtendedLength, MaskField;
    assert EncodeHeader(HeaderAt(b).h)[1] == LengthByte(HeaderAt(b).h) != b[1];
    assert b[..HeaderAt(b).size][1] == b[1];
  }

  lemma MinimalIsEncoded(b: seq<byte>)
    requires HeaderAt(b).Parsed? && HeaderAt(b).h.length >= 0 && WellFormed(HeaderAt(b).h) && Minimal(b)
    ensures b[..HeaderAt(b).size] == EncodeHeader(HeaderAt(b).h)
  {
    MinimalLength(b);
    MinimalFields(b);
    hide BytesOf, BigEndian, ExtendedLength, MaskField, HeaderAt, Minimal;
    var h, n := HeaderAt(b).h, HeaderAt(b).size;
    var m := n - |MaskField(h)|;
    assert b[..n] == [b[0], b[1]] + b[2..m] + b[m..n];
  }

  /** The two fixed bytes and the mask are those of the encoding. */
  lemma MinimalFields(b: seq<byte>)
    requires HeaderAt(b).Parsed? && HeaderAt(b).h.length >= 0 && WellFormed(HeaderAt(b).h) && Minimal(b)
    ensures var h, n := HeaderAt(b).h, HeaderAt(b).size;
            && |MaskField(h)| <= n - 2 && b[n - |MaskField(h)|..n] == MaskField(h)
            && b[0] == FlagByte(h) && b[1] == LengthByte(h)
  {
    hide BytesOf, BigEndian, ExtendedLength;
  }

  lemma MinimalLength(b: seq<byte>)
    requires HeaderAt(b).Parsed? && HeaderAt(b).h.length >= 0 && Minimal(b)
    ensures var m := HeaderAt(b).size - |MaskField(HeaderAt(b).h)|;
            2 <= m && b[2..m] == ExtendedLength(HeaderAt(b).h.length)
  {
    hide Pow256;
    var code := b[1] % 128;
    if code == 126 {
      BytesOfBigEndian(b[2..4]);
    } else if code == 127 {
      Powers();
      BigEndianBound(b[2..10]);
      BytesOfBigEndian(b[2..10]);
    }
  }

  lemma LengthIsInt64(b: seq<byte>)
    requires HeaderAt(b).Parsed?
    ensures HeaderAt(b).h.length <= MAX_INT
  {
    Powers();
    BigEndianBound(b[2..HeaderAt(b).size]);
    if b[1] % 128 == 126 {
      BigEndianBound(b[2..4]);
    } else if b[1] % 128 == 127 {
      BigEndianBound(b[2..10]);
    }
  }

  lemma {:induction false} BigEndianBound(s: seq<byte>)
    ensures BigEndian(s) < Pow256(|s|)
    decreases |s|
  {
    if s != [] {
      BigEndianBound(s[..|s| - 1]);
    }
  }

  // ----- the buffered reader

  datatype ReadError = Eof | ReadFailed | ControlTooLong | UnexpectedEof

  datatype HeaderRead = Got(h: Header) | HeaderError(error: ReadError)

  /** A bufio.Reader over a connection.  `here` has arrived, in its own buffer or the connection's; `later` are the
      pieces still to arrive, after which the stream ends with io.EOF or with another error.  Peek and ReadFull wait
      for as many pieces as they need. */
  class BufReader {
    var here: seq<byte>
    var later: seq<seq<byte>>
    const endsCleanly: bool

    constructor (here: seq<byte>, later: seq<seq<byte>>, endsCleanly: bool)
      ensures this.here == here && this.later == later && this.endsCleanly == endsCleanly
    {
      this.here, this.later := here, later;
      this.endsCleanly := endsCleanly;
    }

    /** Everything that has not been read. */
    ghost function Unread(): seq<byte>
      reads this
    {
      here + Concat(later)
    }

    function EndError(): ReadError
    {
      if endsCleanly then Eof else ReadFailed
    }

    /** The next piece arrives. */
    method Arrive()
      requires later != []
      modifies this
      ensures here == old(here) + old(later)[0] && later == old(later)[1..] && Unread() == old(Unread())
    {
      here, later := here + later[0], later[1..];
    }

    /** Waiting until n bytes are here, or all there will be; nothing is waited for that is not needed. */
    method Await(n: nat)
      modifies this
      ensures Unread() == old(Unread()) && (|here| < n ==> later == []) && |later| <= |old(later)|
      ensures old(|here| >= n) ==> here == old(here) && later == old(later)
    {
      ghost var all := Unread();
      while |here| < n && later != []
        invariant Unread() == all && |later| <= |old(later)|
        invariant old(|here| >= n) ==> here == old(here) && later == old(later)
        decreases |later|
      {
        Arrive();
      }
    }

    method Peek(n: nat) returns (ok: bool, b: seq<byte>)
      modifies this
      ensures Unread() == old(Unread()) && |later| <= |old(later)|
      ensures ok <==> n <= |Unread()|
      ensures ok ==> n <= |here| && b == Unread()[..n]
      ensures old(|here| >= n) ==> here == old(here) && later == old(later)
    {
      Await(n);
      NothingLater(later);
      if |here| < n {
        return false, [];
      }
      return true, here[..n];
    }

    /** io.ReadFull into the first n bytes of a buffer. */
    method ReadFull(a: array<byte>, n: nat) returns (ok: bool)
      requires n <= a.Length
      modifies this, a
      ensures ok <==> n <= |old(Unread())|
      ensures ok ==> a[..n] == old(Unread())[..n] && Unread() == old(Unread())[n..]
      ensures !ok ==> Unread() == []
      ensures |later| <= |old(later)|
    {
      Await(n);
      label Waited:
      NothingLater(later);
      var k := if n <= |here| then n else |here|;
      ghost var all := here;
      for i := 0 to k
        invariant here == all && later == old@Waited(later) && a[..i] == all[..i]
      {
        a[i] := here[i];
        assert a[..i + 1] == a[..i] + [all[i]];
      }
      here := here[k..];
      return k == n;
    }

    method Discard(n: nat)
      requires n <= |here|
      modifies this
      ensures Unread() == old(Unread())[n..] && later == old(later)
    {
      here := here[n..];
    }
  }

  lemma NothingLater(later: seq<seq<byte>>)
    ensures later == [] ==> Concat(later) == []
  {
  }

  /** readHeaderZeroAlloc on a stream. */
  function HeaderReadAt(b: seq<byte>, endError: ReadError): HeaderRead
  {
    match HeaderAt(b)
    case Parsed(h, _) => Got(h)
    case BadControl => if |b| < HeaderSize(b[1]) then HeaderError(endError) else HeaderError(ControlTooLong)
    case NeedMore => HeaderError(endError)
  }

  /** The second size computation agrees with parseHeader: the header returned is the one at the front, exactly
      its bytes are discarded, and io.ErrUnexpectedEOF never comes out. */
  method ReadHeaderZeroAlloc(br: BufReader) returns (r: HeaderRead)
    modifies br
    ensures r == HeaderReadAt(old(br.Unread()), br.EndError()) && r != HeaderError(UnexpectedEof)
    ensures br.Unread() == if HeaderAt(old(br.Unread())).Parsed? then old(br.Unread())[HeaderAt(old(br.Unread())).size..]
                           else old(br.Unread())
    ensures |br.later| <= |old(br.later)|
  {
    hide Concat, BigEndian, ToInt64;
    ghost var all := br.Unread();
    if HeaderAt(all).Parsed? {
      HeaderIsLocal(all, all[..HeaderAt(all).size]);
    } else if HeaderAt(all).BadControl? && HeaderSize(all[1]) <= |all| {
      HeaderIsLocal(all, all[..HeaderSize(all[1])]);
    }
    var ok, b := br.Peek(2);
    if !ok {
      return HeaderError(br.EndError());
    }
    var _, headerBytes, _ := ParseHeader(b);
    if headerBytes == 0 {
      var lengthBits := b[1] % 128;
      headerBytes := 2;
      if lengthBits == 126 {
        headerBytes := 4;
      } else if lengthBits == 127 {
        headerBytes := 10;
      }
      if b[1] >= 128 {
        headerBytes := headerBytes + 4;
      }
    }
    assert headerBytes == HeaderSize(all[1]);
    ok, b := br.Peek(headerBytes);
    if !ok {
      return HeaderError(br.EndError());
    }
    var h, actualBytes, failed := ParseHeader(b);
    if failed {
      return HeaderError(ControlTooLong);
    }
    if actualBytes == 0 {
      assert false;
    }
    br.Discard(actualBytes);
    return Got(h);
  }
}
