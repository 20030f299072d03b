/** The examples of section 5.7 of RFC 6455, and the bit layout of section 5.2. */
module RfcExamples {
  import opened Bytes
  import opened WsHeader
  import opened Masking
  import opened FrameMachine
  import opened FrameStream
  import opened Fragments

  // ----- the bit layout

  lemma HighBit(b: byte)
    ensures Bit(b, 7) == 1 <==> b >= 128
  {
    assert Bit(b, 7) == Bit(b / 2, 6) == Bit(b / 4, 5) == Bit(b / 8, 4) by {
      assert b / 2 / 2 == b / 4 && b / 4 / 2 == b / 8;
    }
    assert Bit(b / 8, 4) == Bit(b / 16, 3) == Bit(b / 32, 2) by {
      assert b / 8 / 2 == b / 16 && b / 16 / 2 == b / 32;
    }
    assert Bit(b / 32, 2) == Bit(b / 64, 1) == Bit(b / 128, 0) by {
      assert b / 32 / 2 == b / 64 && b / 64 / 2 == b / 128;
    }
  }

  /** The fields of a parsed header, from the bits and bytes of the wire. */
  lemma HeaderFields(b: seq<byte>)
    requires HeaderAt(b).Parsed?
    ensures var h, n := HeaderAt(b).h, HeaderAt(b).size;
            var code := b[1] % 128;
            && (h.fin <==> Bit(b[0], 7) == 1) && (h.masked <==> Bit(b[1], 7) == 1)
            && b[0] == (if h.fin then 0x80 else 0) + h.rsv * 0x10 + h.op && 0 <= h.rsv < 8 && 0 <= h.op < 16
            && n == (if code == 126 then 4 else if code == 127 then 10 else 2) + (if h.masked then 4 else 0)
            && n <= |b|
            && (code <= 125 ==> h.length == code)
            && (code == 126 ==> h.length == b[2] as int * 0x100 + b[3])
            && (h.masked ==> h.mask == [b[n - 4], b[n - 3], b[n - 2], b[n - 1]])
  {
    HighBit(b[0]);
    HighBit(b[1]);
    if b[1] % 128 == 126 {
      TwoBytes(b[2..4]);
    }
  }

  lemma TwoBytes(s: seq<byte>)
    requires |s| == 2
    ensures BigEndian(s) == s[0] as int * 0x100 + s[1]
  {
    assert s[..1][..0] == [];
    assert BigEndian(s[..1]) == s[0];
  }

  lemma EightBytes(s: seq<byte>)
    requires |s| == 8
    ensures BigEndian(s) == s[0] as int * 0x100_0000_0000_0000 + s[1] as int * 0x1_0000_0000_0000 + s[2] as int * 0x100_0000_0000
                            + s[3] as int * 0x1_0000_0000 + s[4] as int * 0x100_0000 + s[5] as int * 0x1_0000 + s[6] as int * 0x100 + s[7]
  {
    var a := s[..2];
    TwoBytes(a);
    assert s[..3][..2] == a && BigEndian(s[..3]) == BigEndian(a) * 256 + s[2];
    assert s[..4][..3] == s[..3] && BigEndian(s[..4]) == BigEndian(s[..3]) * 256 + s[3];
    assert s[..5][..4] == s[..4] && BigEndian(s[..5]) == BigEndian(s[..4]) * 256 + s[4];
    assert s[..6][..5] == s[..5] && BigEndian(s[..6]) == BigEndian(s[..5]) * 256 + s[5];
    assert s[..7][..6] == s[..6] && BigEndian(s[..7]) == BigEndian(s[..6]) * 256 + s[6];
    assert s[..8] == s && s[..8][..7] == s[..7];
  }

  /** The 64-bit length, from the highest byte down. */
  lemma LongLength(b: seq<byte>)
    requires HeaderAt(b).Parsed? && b[1] % 128 == 127
    ensures var n := b[2] as int * 0x100_0000_0000_0000 + b[3] as int * 0x1_0000_0000_0000 + b[4] as int * 0x100_0000_0000
                     + b[5] as int * 0x1_0000_0000 + b[6] as int * 0x100_0000 + b[7] as int * 0x1_0000 + b[8] as int * 0x100 + b[9];
            HeaderAt(b).h.length == if b[2] < 0x80 then n else n - 0x1_0000_0000_0000_0000
  {
    EightBytes(b[2..10]);
    hide BigEndian;
    LengthIsInt64(b);
  }

  // ----- the examples

  /** The bytes of "Hello". */
  const HELLO: seq<byte> := ['H' as int, 'e' as int, 'l' as int, 'l' as int, 'o' as int]

  const KEY: seq<byte> := [0x37, 0xfa, 0x21, 0x3d]

  const MASKED_HELLO: seq<byte> := [0x7f, 0x9f, 0x4d, 0x51, 0x58]

  /** One more low bit. */
  lemma OneBit(a: nat, b: nat, c: nat, n: nat)
    requires XorBits(a / 2, b / 2, n) == c / 2 && c % 2 == (a % 2 + b % 2) % 2
    ensures XorBits(a, b, n + 1) == c
  {
  }

  lemma Xor1()
    ensures XorByte(0x7f, 0x37) == 0x48
  {
    hide XorBits;
    NoBit(0, 0);
    OneBit(0x0, 0x0, 0x0, 0);
    OneBit(0x1, 0x0, 0x1, 1);
    OneBit(0x3, 0x1, 0x2, 2);
    OneBit(0x7, 0x3, 0x4, 3);
    OneBit(0xf, 0x6, 0x9, 4);
    OneBit(0x1f, 0xd, 0x12, 5);
    OneBit(0x3f, 0x1b, 0x24, 6);
    OneBit(0x7f, 0x37, 0x48, 7);
  }

  lemma Xor2()
    ensures XorByte(0x9f, 0xfa) == 0x65
  {
    hide XorBits;
    NoBit(0, 0);
    OneBit(0x1, 0x1, 0x0, 0);
    OneBit(0x2, 0x3, 0x1, 1);
    OneBit(0x4, 0x7, 0x3, 2);
    OneBit(0x9, 0xf, 0x6, 3);
    OneBit(0x13, 0x1f, 0xc, 4);
    OneBit(0x27, 0x3e, 0x19, 5);
    OneBit(0x4f, 0x7d, 0x32, 6);
    OneBit(0x9f, 0xfa, 0x65, 7);
  }

  lemma Xor3()
    ensures XorByte(0x4d, 0x21) == 0x6c
  {
    hide XorBits;
    NoBit(0, 0);
    OneBit(0x0, 0x0, 0x0, 0);
    OneBit(0x1, 0x0, 0x1, 1);
    OneBit(0x2, 0x1, 0x3, 2);
    OneBit(0x4, 0x2, 0x6, 3);
    OneBit(0x9, 0x4, 0xd, 4);
    OneBit(0x13, 0x8, 0x1b, 5);
    OneBit(0x26, 0x10, 0x36, 6);
    OneBit(0x4d, 0x21, 0x6c, 7);
  }

  lemma Xor4()
    ensures XorByte(0x51, 0x3d) == 0x6c
  {
    hide XorBits;
    NoBit(0, 0);
    OneBit(0x0, 0x0, 0x0, 0);
    OneBit(0x1, 0x0, 0x1, 1);
    OneBit(0x2, 0x1, 0x3, 2);
    OneBit(0x5, 0x3, 0x6, 3);
    OneBit(0xa, 0x7, 0xd, 4);
    OneBit(0x14, 0xf, 0x1b, 5);
    OneBit(0x28, 0x1e, 0x36, 6);
    OneBit(0x51, 0x3d, 0x6c, 7);
  }

  lemma Xor5()
    ensures XorByte(0x58, 0x37) == 0x6f
  {
    hide XorBits;
    NoBit(0, 0);
    OneBit(0x0, 0x0, 0x0, 0);
    OneBit(0x1, 0x0, 0x1, 1);
    OneBit(0x2, 0x1, 0x3, 2);
    OneBit(0x5, 0x3, 0x6, 3);
    OneBit(0xb, 0x6, 0xd, 4);
    OneBit(0x16, 0xd, 0x1b, 5);
    OneBit(0x2c, 0x1b, 0x37, 6);
    OneBit(0x58, 0x37, 0x6f, 7);
  }

  lemma UnmaskedHello()
    ensures Cipher(MASKED_HELLO, KEY) == HELLO
  {
    Xor1();
    Xor2();
    Xor3();
    Xor4();
    Xor5();
    hide XorByte;
  }

  /** One frame and nothing else on the connection. */
  lemma OneFrame(env: Env, a: Assembly, b: seq<byte>, h: Header, n: nat, payload: seq<byte>)
    requires HeaderAt(b) == Parsed(h, n) && h.length == |b| - n <= MAX_INT - 14 && Unmasked(h, b[n..]) == payload
    requires env.maxFrameSize > 0 ==> h.length <= env.maxFrameSize
    ensures NetpollPass(env, a, b) == Took(|b|, Handle(env, a, h, payload))
    ensures Handle(env, a, h, payload).status == Open ==>
              var r := Handle(env, a, h, payload); Drain(env, a, b) == Run(r.asm, [], r.events, Open)
  {
    hide HeaderAt, Handle, Unmasked;
    assert b[n..n + h.length] == b[n..];
    assert h.length == 0 ==> b[n..n + 0] == b[n..];
    DrainOnce(env, a, b);
    var r := Handle(env, a, h, payload);
    assert b[|b|..] == [];
    NothingToTake(env, r.asm);
    DrainOnce(env, r.asm, []);
    assert r.events + [] == r.events;
  }

  predicate Roomy(env: Env)
  {
    env.maxFrameSize > 0 ==> env.maxFrameSize >= 65536
  }

  /** A single-frame unmasked text message. */
  lemma UnmaskedText(env: Env)
    requires Roomy(env)
    ensures Drain(env, Idle, [0x81, 0x05, 0x48, 0x65, 0x6c, 0x6c, 0x6f]) == Run(Idle, [], [Message(1, HELLO)], Open)
  {
    var b: seq<byte> := [0x81, 0x05, 0x48, 0x65, 0x6c, 0x6c, 0x6f];
    assert b[2..] == HELLO;
    OneFrame(env, Idle, b, Header(true, 0, 1, false, 5, NO_MASK), 2, HELLO);
  }

  /** A single-frame masked text message. */
  lemma MaskedText(env: Env)
    requires Roomy(env)
    ensures Drain(env, Idle, [0x81, 0x85, 0x37, 0xfa, 0x21, 0x3d, 0x7f, 0x9f, 0x4d, 0x51, 0x58])
         == Run(Idle, [], [Message(1, HELLO)], Open)
  {
    hide Cipher;
    var b: seq<byte> := [0x81, 0x85, 0x37, 0xfa, 0x21, 0x3d, 0x7f, 0x9f, 0x4d, 0x51, 0x58];
    assert b[2..6] == KEY && b[6..] == MASKED_HELLO;
    UnmaskedHello();
    OneFrame(env, Idle, b, Header(true, 0, 1, true, 5, KEY), 6, HELLO);
  }

  /** A fragmented unmasked text message: "Hel" and "lo". */
  lemma FragmentedText(env: Env)
    requires Roomy(env)
    ensures Drain(env, Idle, [0x01, 0x03, 0x48, 0x65, 0x6c]) == Run(Partial(HELLO[..3], false, 1), [], [], Open)
    ensures Drain(env, Partial(HELLO[..3], false, 1), [0x80, 0x02, 0x6c, 0x6f])
         == Run(Idle, [], [Message(1, HELLO)], Open)
  {
    var b: seq<byte>, c: seq<byte> := [0x01, 0x03, 0x48, 0x65, 0x6c], [0x80, 0x02, 0x6c, 0x6f];
    assert b[2..] == HELLO[..3] && c[2..] == HELLO[3..] && HELLO[..3] + HELLO[3..] == HELLO;
    OneFrame(env, Idle, b, Header(false, 0, 1, false, 3, NO_MASK), 2, HELLO[..3]);
    OneFrame(env, Partial(HELLO[..3], false, 1), c, Header(true, 0, 0, false, 2, NO_MASK), 2, HELLO[3..]);
  }

  /** An unmasked ping and a masked pong with the body "Hello". */
  lemma PingAndPong(env: Env, a: Assembly)
    requires Roomy(env)
    ensures Drain(env, a, [0x89, 0x05, 0x48, 0x65, 0x6c, 0x6c, 0x6f])
         == Run(a, [], [Ping(HELLO), PongReply(HELLO)], Open)
    ensures Drain(env, a, [0x8a, 0x85, 0x37, 0xfa, 0x21, 0x3d, 0x7f, 0x9f, 0x4d, 0x51, 0x58])
         == Run(a, [], [Pong(HELLO)], Open)
  {
    hide Cipher;
    var b: seq<byte> := [0x89, 0x05, 0x48, 0x65, 0x6c, 0x6c, 0x6f];
    var c: seq<byte> := [0x8a, 0x85, 0x37, 0xfa, 0x21, 0x3d, 0x7f, 0x9f, 0x4d, 0x51, 0x58];
    assert b[2..] == HELLO && c[2..6] == KEY && c[6..] == MASKED_HELLO;
    UnmaskedHello();
    OneFrame(env, a, b, Header(true, 0, 9, false, 5, NO_MASK), 2, HELLO);
    OneFrame(env, a, c, Header(true, 0, 10, true, 5, KEY), 6, HELLO);
  }

  /** 256 bytes of binary data in a single unmasked frame. */
  lemma BinaryOf256(env: Env, data: seq<byte>)
    requires Roomy(env) && |data| == 256
    ensures Drain(env, Idle, [0x82, 0x7e, 0x01, 0x00] + data) == Run(Idle, [], [Message(2, data)], Open)
  {
    hide BigEndian;
    var b := [0x82, 0x7e, 0x01, 0x00] + data;
    assert b[4..] == data;
    TwoBytes(b[2..4]);
    OneFrame(env, Idle, b, Header(true, 0, 2, false, 256, NO_MASK), 4, data);
  }

  /** 64 KiB of binary data in a single unmasked frame. */
  lemma BinaryOf64K(env: Env, data: seq<byte>)
    requires Roomy(env) && |data| == 65536
    ensures Drain(env, Idle, [0x82, 0x7f, 0, 0, 0, 0, 0, 1, 0, 0] + data) == Run(Idle, [], [Message(2, data)], Open)
  {
    hide BigEndian;
    var b := [0x82, 0x7f, 0, 0, 0, 0, 0, 1, 0, 0] + data;
    assert b[10..] == data;
    EightBytes(b[2..10]);
    OneFrame(env, Idle, b, Header(true, 0, 2, false, 65536, NO_MASK), 10, data);
  }
}
