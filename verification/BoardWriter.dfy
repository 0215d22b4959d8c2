/** The block writers of the serial port tools (the Windows and the Mac `utils.cpp`). */
module BoardWriter {
  import opened HexText
  import opened Power
  import opened Requests

  /** Memory that a pointer leads into: the buffer, followed by whatever comes after it. */
  type Memory = int -> Byte

  function Slice(m: Memory, start: int, n: nat): (s: seq<Byte>)
    ensures |s| == n
  {
    seq(n, i requires 0 <= i < n => m(start + i))
  }

  // ---------- the device ----------

  const TWO_32 := 0x1_0000_0000
  const TWO_64 := 0x1_0000_0000_0000_0000

  /** How far the address `a` lies behind `address`, where addresses have 64 bits. */
  ghost function Offset(a: int, address: int): nat {
    (a - address) % TWO_64
  }

  ghost function Store(dev: Memory, b: Block): Memory {
    a => if Offset(a, b.address) < |b.data| then b.data[Offset(a, b.address)] else dev(a)
  }

  /** The device reads what was sent, request by request, and stores what it can decode. */
  ghost function Device(dev: Memory, sent: seq<string>): Memory {
    if sent == [] then dev
    else
      var before := Device(dev, sent[..|sent| - 1]);
      match Decode(sent[|sent| - 1])
      case None => before
      case Some(b) => Store(before, b)
  }

  /** A device that held `dev` now holds the `len` bytes of memory from `start` on at its `address`, and
      is unchanged elsewhere. */
  ghost predicate Filled(now: Memory, dev: Memory, address: int, m: Memory, start: int, len: nat) {
    forall a :: now(a) == if Offset(a, address) < len then m(start + Offset(a, address)) else dev(a)
  }

  /** The port: the requests sent so far, and what the device at the other end held at first. */
  class SerialPort {
    var sent: seq<string>
    ghost const first: Memory

    /** What the device holds by now. */
    ghost function Held(): Memory
      reads this
    {
      Device(first, sent)
    }

    constructor (ghost dev: Memory)
      ensures sent == [] && Held() == dev
    {
      sent, first := [], dev;
    }
  }

  lemma {:induction false} SliceWord(m: Memory, start: int, words: nat, w: nat)
    requires w < words
    ensures WordText(Slice(m, start, 4 * words), w) == WordText(Slice(m, start + 4 * w, 4), 0)
  {
  }

  /** The four bytes of a word, the last one first. */
  method WordOf(m: Memory, start: int) returns (s: string)
    ensures s == WordText(Slice(m, start, 4), 0)
  {
    s := "";
    var offset := 3;
    while offset >= 0
      invariant -1 <= offset <= 3
      invariant s == WordText(Slice(m, start, 4), 0)[..2 * (3 - offset)]
    {
      var b: Byte := m(start + offset);
      EncodersAgree(b, 0);
      s := s + ByteToAscii(b);
      offset := offset - 1;
    }
  }

  /** The words of a request, once `k` of them have been written. */
  ghost function WordsWritten(m: Memory, start: int, words: nat, k: nat): string
    requires k <= words
  {
    Written(Slice(m, start, 4 * words), words, k, "\r")
  }

  lemma {:induction false} NextWord(m: Memory, start: int, words: nat, k: nat, from: int, s: string)
    requires k < words && from == start + 4 * k && s == WordText(Slice(m, from, 4), 0)
    ensures WordsWritten(m, start, words, k + 1) ==
      WordsWritten(m, start, words, k) + s + if k < words - 1 then " " else "\r"
  {
    SliceWord(m, start, words, k);
  }

  /** The loop over the words of a request. */
  method Words(head: string, m: Memory, start: int, words: int) returns (req: string)
    ensures req == if words > 0 then head + WordsWritten(m, start, words, words) else head
  {
    req := head;
    var word := 0;
    assert head + "" == head;
    while word < words
      invariant 0 <= word && (word <= words || word == 0)
      invariant req == if words > 0 then head + WordsWritten(m, start, words, word) else head
    {
      var from := start + 4 * word;
      var s := WordOf(m, from);
      NextWord(m, start, words, word, from, s);
      req := Appended(head, req, s, word < words - 1, WordsWritten(m, start, words, word));
      word := word + 1;
    }
    assert words > 0 ==> word == words;
  }

  /** The word and the separator or the terminator that follows it. */
  method Appended(ghost head: string, req0: string, s: string, more: bool, ghost written: string) returns (req: string)
    requires req0 == head + written
    ensures req == head + (written + s + if more then " " else "\r")
  {
    req := req0 + s;
    if more {
      req := req + " ";
    } else {
      req := req + "\r";
    }
  }

  lemma {:induction false} Unterminated(s: string)
    ensures Decode(s + " ") == None
  {
    var t := s + " ";
    assert t[|t| - 1] == ' ';
  }

  /** An address as a stream in `std::hex` mode sees it: its 64 bits, in two's complement. */
  function AddressBits(v: int): (bits: nat)
    ensures bits < TWO_64
    ensures 0 <= v < TWO_64 ==> bits == v
    ensures -TWO_64 <= v < 0 ==> bits == v + TWO_64
  {
    v % TWO_64
  }

  /** A word count as such a stream sees it: 32 bits. */
  function CountBits(v: int): (bits: nat)
    requires 0 <= v + TWO_32 / 2
    ensures bits % TWO_32 == v % TWO_32
    ensures v < TWO_32 ==> bits < TWO_32
  {
    if v < 0 then v + TWO_32 else v
  }

  /** The request that `write_words` builds. Without any word it is not terminated. */
  method Request(address: int, m: Memory, start: int, words: int) returns (req: string)
    requires 0 <= words + TWO_32 / 2
    ensures words > 0 ==> req == Render(Block(AddressBits(address), Slice(m, start, 4 * words)))
    ensures words <= 0 ==> req == EmptyRequest(address, words) && Decode(req) == None
  {
    var head := "w" + Hex(AddressBits(address)) + " " + Hex(CountBits(words)) + " ";
    req := Words(head, m, start, words);
    if words > 0 {
      WrittenAll(Block(AddressBits(address), Slice(m, start, 4 * words)), words);
    } else {
      Unterminated("w" + Hex(AddressBits(address)) + " " + Hex(CountBits(words)));
    }
  }

  /** What is left of a request without any word. */
  function EmptyRequest(address: int, words: int): string
    requires 0 <= words + TWO_32 / 2
  {
    "w" + Hex(AddressBits(address)) + " " + Hex(CountBits(words)) + " "
  }

  /** `write_words`: one request goes out. */
  method WriteWords(sp: SerialPort, address: int, m: Memory, start: int, words: int)
    requires words > 0
    modifies sp
    ensures sp.sent == old(sp.sent) + [Render(Block(AddressBits(address), Slice(m, start, 4 * words)))]
  {
    var req := Request(address, m, start, words);
    sp.sent := sp.sent + [req];
  }

  // ---------- the plans ----------

  /** What has been sent grew from `was` to `now` by the requests for the blocks of a plan. */
  ghost predicate Sends(was: seq<string>, now: seq<string>, plan: seq<Block>) {
    if plan == [] then now == was
    else
      && now != [] && now[|now| - 1] == Render(plan[|plan| - 1])
      && Sends(was, now[..|now| - 1], plan[..|plan| - 1])
  }

  /** The blocks lie side by side, without gap or overlap, from `address` on, and carry the `len` bytes
      of memory from `start` on. */
  ghost predicate Contiguous(blocks: seq<Block>, address: int, m: Memory, start: int, len: nat) {
    if blocks == [] then len == 0
    else
      var b, n := blocks[|blocks| - 1], |blocks[|blocks| - 1].data|;
      && 0 < n <= len && n % 4 == 0
      && b == Block(AddressBits(address + len - n), Slice(m, start + len - n, n))
      && Contiguous(blocks[..|blocks| - 1], address, m, start, len - n)
  }

  lemma {:induction false} OneMore(blocks: seq<Block>, address: int, m: Memory, start: int, len: nat, n: nat)
    requires Contiguous(blocks, address, m, start, len) && n > 0 && n % 4 == 0
    ensures var b := Block(AddressBits(address + len), Slice(m, start + len, n));
      Contiguous(blocks + [b], address, m, start, len + n)
  {
    var all := blocks + [Block(AddressBits(address + len), Slice(m, start + len, n))];
    assert all[..|all| - 1] == blocks;
  }

  lemma {:induction false} BothParts(a: seq<Block>, b: seq<Block>, address: int, m: Memory, start: int, la: nat,
      lb: nat)
    requires Contiguous(a, address, m, start, la) && Contiguous(b, address + la, m, start + la, lb)
    ensures Contiguous(a + b, address, m, start, la + lb)
  {
    if b == [] {
      assert a + b == a;
    } else {
      var n := |b[|b| - 1].data|;
      BothParts(a, b[..|b| - 1], address, m, start, la, lb - n);
      assert (a + b)[..|a + b| - 1] == a + b[..|b| - 1];
    }
  }

  lemma {:induction false} LastOf<T>(s: seq<T>, x: T)
    ensures (s + [x])[..|s + [x]| - 1] == s && (s + [x])[|s + [x]| - 1] == x
  {
  }

  lemma {:induction false} SendsMore(was: seq<string>, now: seq<string>, plan: seq<Block>, b: Block)
    requires Sends(was, now, plan)
    ensures Sends(was, now + [Render(b)], plan + [b])
  {
    LastOf(plan, b);
    LastOf(now, Render(b));
  }

  lemma {:induction false} NothingPlanned(was: seq<string>, address: int, m: Memory, start: int)
    ensures Sends(was, was, []) && Contiguous([], address, m, start, 0)
  {
  }

  lemma {:induction false} SendsBoth(was: seq<string>, mid: seq<string>, now: seq<string>, a: seq<Block>, b: seq<Block>)
    requires Sends(was, mid, a) && Sends(mid, now, b)
    ensures Sends(was, now, a + b)
  {
    if b == [] {
      assert a + b == a;
    } else {
      var k := |b| - 1;
      SendsBoth(was, mid, now[..|now| - 1], a, b[..k]);
      assert (a + b)[..|a + b| - 1] == a + b[..k];
    }
  }

  // ---------- the requests as the device reads them ----------

  /** Reading back the requests of a plan gives exactly its blocks. */
  lemma {:induction false} ReadBack(was: seq<string>, now: seq<string>, plan: seq<Block>,
                                    address: int, m: Memory, start: int, len: nat, i: nat)
    requires Sends(was, now, plan) && Contiguous(plan, address, m, start, len)
    ensures |now| == |was| + |plan|
    ensures i < |was| ==> now[i] == was[i]
    ensures i < |plan| ==> Decode(now[|was| + i]) == Some(plan[i])
  {
    hide Render, Decode;
    if plan == [] {
    } else {
      var k := |plan| - 1;
      ReadBack(was, now[..|now| - 1], plan[..k], address, m, start, len - |plan[k].data|, i);
      if i == k {
        DecodeRender(plan[k]);
      }
    }
  }

  lemma {:induction false} FilledMore(now: Memory, dev: Memory, address: int, m: Memory, start: int, len: nat, n: nat)
    requires Filled(now, dev, address, m, start, len) && len + n <= TWO_64
    ensures var b := Block(AddressBits(address + len), Slice(m, start + len, n));
      Filled(Store(now, b), dev, address, m, start, len + n)
  {
    var now' := Store(now, Block(AddressBits(address + len), Slice(m, start + len, n)));
    forall a
      ensures now'(a) == if Offset(a, address) < len + n then m(start + Offset(a, address)) else dev(a)
    {
      Further(a, address, len);
    }
  }

  /** The distance from a point `len` bytes on. */
  lemma {:induction false} Further(a: int, address: int, len: nat)
    requires len <= TWO_64
    ensures var i, j := Offset(a, address), Offset(a, AddressBits(address + len));
      j == if i >= len then i - len else i - len + TWO_64
  {
  }

  /** A device that reads the requests of a plan holds the bytes of memory over its range, and is
      unchanged elsewhere. */
  lemma {:induction false} Delivered(dev: Memory, was: seq<string>, now: seq<string>, plan: seq<Block>,
                                     address: int, m: Memory, start: int, len: nat)
    requires Sends(was, now, plan) && Contiguous(plan, address, m, start, len) && len <= TWO_64
    ensures Filled(Device(dev, now), Device(dev, was), address, m, start, len)
  {
    hide Render;
    if plan == [] {
    } else {
      var k := |plan| - 1;
      var n, before := |plan[k].data|, now[..|now| - 1];
      Delivered(dev, was, before, plan[..k], address, m, start, len - n);
      DecodeRender(plan[k]);
      FilledMore(Device(dev, before), Device(dev, was), address, m, start, len - n, n);
    }
  }

  // ---------- how many bytes a planner sends ----------

  function RoundedUp(bytes: int): nat {
    if bytes <= 0 then 0 else (bytes + 3) / 4 * 4
  }

  /** Blocks of 64 bytes as long as 16 are left, then words. */
  function Sent16(bytes: int): nat {
    if bytes <= 0 then 0
    else bytes - bytes % 64 + if bytes % 64 < 16 then RoundedUp(bytes % 64) else 64
  }

  /** Blocks of 1024 bytes as long as 256 are left, then as above. */
  function Sent256(bytes: int): nat {
    if bytes <= 0 then 0
    else bytes - bytes % 1024 + if bytes % 1024 < 256 then Sent16(bytes % 1024) else 1024
  }

  lemma {:induction false} SentBounds(bytes: int)
    ensures bytes <= RoundedUp(bytes) && bytes <= Sent16(bytes) && bytes <= Sent256(bytes)
    ensures bytes <= 0 ==> RoundedUp(bytes) == 0 && Sent16(bytes) == 0 && Sent256(bytes) == 0
    ensures bytes > 0 ==>
      RoundedUp(bytes) <= bytes + 3 && Sent16(bytes) <= bytes + 48 && Sent256(bytes) <= bytes + 768
  {
  }

  lemma {:induction false} RoundedUpStep(bytes: int)
    requires bytes > 0
    ensures RoundedUp(bytes) == 4 + RoundedUp(bytes - 4)
  {
    DivUnique(bytes - 1, 4, (bytes + 3) / 4 - 1, (bytes + 3) % 4);
  }

  lemma {:induction false} Sent16Step(bytes: int)
    requires bytes > 0
    ensures Sent16(bytes) == if bytes >= 16 then 64 + Sent16(bytes - 64) else 4 + Sent16(bytes - 4)
  {
    hide RoundedUp;
    SentBounds(bytes - 4);
    if bytes >= 64 {
      SentBounds(0);
      DivUnique(bytes - 64, 64, bytes / 64 - 1, bytes % 64);
    } else {
      DivUnique(bytes, 64, 0, bytes);
      if bytes < 16 {
        RoundedUpStep(bytes);
        if bytes > 4 {
          DivUnique(bytes - 4, 64, 0, bytes - 4);
        }
      }
    }
  }

  lemma {:induction false} Sent256Step(bytes: int)
    requires bytes > 0
    ensures Sent256(bytes) == if bytes >= 256 then 1024 + Sent256(bytes - 1024) else Sent16(bytes)
  {
    hide Sent16;
    if bytes >= 1024 {
      SentBounds(0);
      DivUnique(bytes - 1024, 1024, bytes / 1024 - 1, bytes % 1024);
    } else {
      DivUnique(bytes, 1024, 0, bytes);
    }
  }

  lemma {:induction false} RoundedExact(bytes: nat)
    ensures RoundedUp(bytes) == bytes <==> bytes % 4 == 0
  {
    var d, r := bytes / 4, bytes % 4;
    assert bytes == 4 * d + r;
  }

  lemma {:induction false} Remainders(bytes: nat)
    ensures bytes % 64 % 4 == bytes % 4 && bytes % 1024 % 64 == bytes % 64 && bytes % 1024 % 4 == bytes % 4
  {
    var r, t := bytes % 64, bytes % 1024;
    DivUnique(bytes, 4, 16 * (bytes / 64) + r / 4, r % 4);
    DivUnique(bytes, 64, 16 * (bytes / 1024) + t / 64, t % 64);
    DivUnique(bytes, 4, 256 * (bytes / 1024) + t / 4, t % 4);
  }

  lemma {:induction false} Exact16(bytes: nat)
    ensures Sent16(bytes) == bytes <==> bytes % 4 == 0 && bytes % 64 < 16
  {
    hide RoundedUp;
    RoundedExact(bytes % 64);
    Remainders(bytes);
  }

  /** The guards compare bytes with a number of words, so the fast planners send more than the buffer for
      most sizes: what is sent ends with the buffer exactly for these sizes. */
  lemma {:induction false} SentExact(bytes: nat)
    ensures RoundedUp(bytes) == bytes <==> bytes % 4 == 0
    ensures Sent16(bytes) == bytes <==> bytes % 4 == 0 && bytes % 64 < 16
    ensures Sent256(bytes) == bytes <==> bytes % 4 == 0 && bytes % 64 < 16 && bytes % 1024 < 256
  {
    hide RoundedUp, Sent16;
    RoundedExact(bytes);
    Exact16(bytes);
    Exact16(bytes % 1024);
    Remainders(bytes);
    Remainders(bytes % 1024);
  }

  // ---------- how the planners cut the buffer ----------

  ghost function Sizes(plan: seq<Block>): seq<nat> {
    seq(|plan|, i requires 0 <= i < |plan| => |plan[i].data|)
  }

  ghost function Repeat(n: nat, size: nat): seq<nat> {
    seq(n, _ => size)
  }

  /** Words only. */
  ghost function CutsWords(bytes: int): seq<nat> {
    if bytes <= 0 then [] else Repeat((bytes + 3) / 4, 4)
  }

  /** One block for each 64 bytes; a rest of 16 bytes or more makes one more such block, and a shorter one
      is cut into words. */
  ghost function Cuts16(bytes: int): seq<nat> {
    if bytes <= 0 then []
    else Repeat(bytes / 64, 64) + if bytes % 64 >= 16 then [64] else CutsWords(bytes % 64)
  }

  /** One block for each 1024 bytes; a rest of 256 bytes or more makes one more such block, and a shorter
      one is cut as above. */
  ghost function Cuts256(bytes: int): seq<nat> {
    if bytes <= 0 then []
    else Repeat(bytes / 1024, 1024) + if bytes % 1024 >= 256 then [1024] else Cuts16(bytes % 1024)
  }

  lemma {:induction false} RepeatOne(n: nat, size: nat, rest: seq<nat>)
    requires n > 0
    ensures Repeat(n, size) == [size] + Repeat(n - 1, size)
    ensures Repeat(n, size) + rest == [size] + (Repeat(n - 1, size) + rest)
  {
  }

  lemma {:induction false} RepeatNone(size: nat, rest: seq<nat>)
    ensures Repeat(0, size) + rest == rest
  {
  }

  lemma {:induction false} CutsWordsStep(bytes: int)
    requires bytes > 0
    ensures CutsWords(bytes) == [4] + CutsWords(bytes - 4)
  {
    var n := (bytes + 3) / 4;
    DivUnique(bytes - 1, 4, n - 1, (bytes + 3) % 4);
    RepeatOne(n, 4, []);
    if bytes <= 4 {
      assert n == 1 && [4] + Repeat(0, 4) == [4] + [];
    }
  }

  lemma {:induction false} Cuts16Step(bytes: int)
    requires bytes > 0
    ensures Cuts16(bytes) == if bytes >= 16 then [64] + Cuts16(bytes - 64) else [4] + Cuts16(bytes - 4)
  {
    hide Repeat, CutsWords;
    if bytes >= 64 {
      var rest := if bytes % 64 >= 16 then [64] else CutsWords(bytes % 64);
      DivUnique(bytes - 64, 64, bytes / 64 - 1, bytes % 64);
      RepeatOne(bytes / 64, 64, rest);
      if bytes == 64 {
        NoCuts();
        RepeatNone(64, []);
      }
    } else {
      DivUnique(bytes, 64, 0, bytes);
      RepeatNone(64, if bytes >= 16 then [64] else CutsWords(bytes));
      if bytes < 16 {
        CutsWordsStep(bytes);
        if bytes > 4 {
          DivUnique(bytes - 4, 64, 0, bytes - 4);
          RepeatNone(64, CutsWords(bytes - 4));
        } else {
          NoCuts();
        }
      } else {
        assert [64] + [] == [64];
      }
    }
  }

  lemma {:induction false} NoCuts()
    ensures forall bytes :: bytes <= 0 ==> CutsWords(bytes) == []
  {
  }

  lemma {:induction false} Cuts256Step(bytes: int)
    requires bytes > 0
    ensures Cuts256(bytes) == if bytes >= 256 then [1024] + Cuts256(bytes - 1024) else Cuts16(bytes)
  {
    hide Repeat, CutsWords;
    if bytes >= 1024 {
      var rest := if bytes % 1024 >= 256 then [1024] else Cuts16(bytes % 1024);
      DivUnique(bytes - 1024, 1024, bytes / 1024 - 1, bytes % 1024);
      RepeatOne(bytes / 1024, 1024, rest);
      if bytes == 1024 {
        RepeatNone(1024, []);
      }
    } else {
      DivUnique(bytes, 1024, 0, bytes);
      RepeatNone(1024, if bytes >= 256 then [1024] else Cuts16(bytes));
      assert [1024] + [] == [1024];
    }
  }

  lemma {:induction false} SizesMore(plan: seq<Block>, b: Block, rest: seq<nat>)
    ensures Sizes(plan + [b]) + rest == Sizes(plan) + ([|b.data|] + rest)
  {
  }

  lemma {:induction false} SizesBoth(a: seq<Block>, b: seq<Block>)
    ensures Sizes(a + b) == Sizes(a) + Sizes(b)
  {
  }

  lemma {:induction false} SizesNone(rest: seq<nat>)
    ensures Sizes([]) == [] && Sizes([]) + rest == rest
  {
  }

  lemma {:induction false} CutsDone(bytes: int, plan: seq<Block>)
    requires bytes <= 0
    ensures Sizes(plan) + CutsWords(bytes) == Sizes(plan)
    ensures Sizes(plan) + Cuts16(bytes) == Sizes(plan)
    ensures Sizes(plan) + Cuts256(bytes) == Sizes(plan)
  {
  }

  // ---------- the planners ----------

  /** `write_words` for the next block of the plan, which has come to `offset`. */
  method WriteNext(sp: SerialPort, at: int, m: Memory, from: int, words: nat,
                   ghost address: int, ghost start: int, ghost offset: nat,
                   ghost was: seq<string>, ghost plan: seq<Block>, ghost rest: seq<nat>)
    returns (ghost plan': seq<Block>)
    requires words > 0 && at == address + offset && from == start + offset
    requires Sends(was, sp.sent, plan) && Contiguous(plan, address, m, start, offset)
    modifies sp
    ensures Sends(was, sp.sent, plan') && Contiguous(plan', address, m, start, offset + 4 * words)
    ensures Sizes(plan') + rest == Sizes(plan) + ([4 * words] + rest)
  {
    hide Render, Contiguous, Sends, AddressBits, Sizes;
    ghost var b := Block(AddressBits(at), Slice(m, from, 4 * words));
    OneMore(plan, address, m, start, offset, 4 * words);
    SendsMore(was, sp.sent, plan, b);
    SizesMore(plan, b, rest);
    WriteWords(sp, at, m, from, words);
    plan' := plan + [b];
  }

  /** `write_bytes`: word by word. */
  method WriteBytes(sp: SerialPort, address0: int, m: Memory, start: int, bytes: int)
    returns (ghost plan: seq<Block>, ghost len: nat)
    requires bytes < TWO_64 / 2
    modifies sp
    ensures Sends(old(sp.sent), sp.sent, plan) && Contiguous(plan, address0, m, start, len)
    ensures Filled(sp.Held(), old(sp.Held()), address0, m, start, len)
    ensures len == RoundedUp(bytes) && Sizes(plan) == CutsWords(bytes)
  {
    hide Render, Contiguous, Sends, Device, Offset, RoundedUp, Sent16, Sent256;
    hide Sizes, CutsWords, Cuts16, Cuts256;
    NothingPlanned(sp.sent, address0, m, start);
    SizesNone(CutsWords(bytes));
    plan := [];
    var address := address0;
    var offset := 0;
    while offset < bytes
      invariant Sends(old(sp.sent), sp.sent, plan)
      invariant offset >= 0 && address == address0 + offset && Contiguous(plan, address0, m, start, offset)
      invariant offset + RoundedUp(bytes - offset) == RoundedUp(bytes)
      invariant Sizes(plan) + CutsWords(bytes - offset) == CutsWords(bytes)
    {
      RoundedUpStep(bytes - offset);
      CutsWordsStep(bytes - offset);
      plan := WriteNext(sp, address, m, start + offset, 1, address0, start, offset, old(sp.sent), plan,
        CutsWords(bytes - offset - 4));
      address := address + 4;
      offset := offset + 4;
    }
    len := offset;
    SentBounds(bytes);
    SentBounds(bytes - offset);
    CutsDone(bytes - offset, plan);
    Delivered(sp.first, old(sp.sent), sp.sent, plan, address0, m, start, len);
  }

  /** `write_bytes_16` of the Windows tool and `write_bytes_fast` of the Mac tool: sixteen words at a
      time as soon as sixteen bytes are left. */
  method WriteBytes16(sp: SerialPort, address: int, m: Memory, start: int, bytes: int)
    returns (ghost plan: seq<Block>, ghost len: nat)
    requires bytes < TWO_64 / 2
    modifies sp
    ensures Sends(old(sp.sent), sp.sent, plan) && Contiguous(plan, address, m, start, len)
    ensures Filled(sp.Held(), old(sp.Held()), address, m, start, len)
    ensures len == Sent16(bytes) && Sizes(plan) == Cuts16(bytes)
  {
    hide Render, Contiguous, Sends, Device, Offset, RoundedUp, Sent16, Sent256;
    hide Sizes, CutsWords, Cuts16, Cuts256;
    NothingPlanned(sp.sent, address, m, start);
    SizesNone(Cuts16(bytes));
    plan := [];
    var offset := 0;
    while offset < bytes
      invariant Sends(old(sp.sent), sp.sent, plan)
      invariant offset >= 0 && Contiguous(plan, address, m, start, offset)
      invariant offset + Sent16(bytes - offset) == Sent16(bytes)
      invariant Sizes(plan) + Cuts16(bytes - offset) == Cuts16(bytes)
    {
      Sent16Step(bytes - offset);
      Cuts16Step(bytes - offset);
      if bytes - offset >= 16 {
        plan := WriteNext(sp, address + offset, m, start + offset, 16, address, start, offset, old(sp.sent), plan,
          Cuts16(bytes - offset - 64));
        offset := offset + 16 * 4;
      } else {
        plan := WriteNext(sp, address + offset, m, start + offset, 1, address, start, offset, old(sp.sent), plan,
          Cuts16(bytes - offset - 4));
        offset := offset + 4;
      }
    }
    len := offset;
    SentBounds(bytes);
    SentBounds(bytes - offset);
    CutsDone(bytes - offset, plan);
    Delivered(sp.first, old(sp.sent), sp.sent, plan, address, m, start, len);
  }

  /** `write_bytes_256`: 256 words at a time as soon as 256 bytes are left, the rest as above. */
  method WriteBytes256(sp: SerialPort, address: int, m: Memory, start: int, bytes: int)
    returns (ghost plan: seq<Block>, ghost len: nat)
    requires bytes < TWO_64 / 2
    modifies sp
    ensures Sends(old(sp.sent), sp.sent, plan) && Contiguous(plan, address, m, start, len)
    ensures Filled(sp.Held(), old(sp.Held()), address, m, start, len)
    ensures len == Sent256(bytes) && Sizes(plan) == Cuts256(bytes)
  {
    hide Render, Contiguous, Sends, Device, Offset, Sent16, Sent256, RoundedUp;
    hide Sizes, CutsWords, Cuts16, Cuts256;
    NothingPlanned(sp.sent, address, m, start);
    SizesNone(Cuts256(bytes));
    plan := [];
    var offset := 0;
    while offset < bytes
      invariant Sends(old(sp.sent), sp.sent, plan)
      invariant offset >= 0 && Contiguous(plan, address, m, start, offset)
      invariant offset + Sent256(bytes - offset) == Sent256(bytes)
      invariant Sizes(plan) + Cuts256(bytes - offset) == Cuts256(bytes)
    {
      Sent256Step(bytes - offset);
      Cuts256Step(bytes - offset);
      if bytes - offset >= 256 {
        plan := WriteNext(sp, address + offset, m, start + offset, 256, address, start, offset, old(sp.sent), plan,
          Cuts256(bytes - offset - 1024));
        offset := offset + 256 * 4;
      } else {
        ghost var before := sp.sent;
        ghost var rest, n := WriteBytes16(sp, address + offset, m, start + offset, bytes - offset);
        BothParts(plan, rest, address, m, start, offset, n);
        SendsBoth(old(sp.sent), before, sp.sent, plan, rest);
        SizesBoth(plan, rest);
        plan, len := plan + rest, offset + n;
        SentBounds(bytes);
        Delivered(sp.first, old(sp.sent), sp.sent, plan, address, m, start, len);
        return;
      }
    }
    len := offset;
    SentBounds(bytes);
    SentBounds(bytes - offset);
    CutsDone(bytes - offset, plan);
    Delivered(sp.first, old(sp.sent), sp.sent, plan, address, m, start, len);
  }

  // ---------- what the writers leave in the device ----------

  /** A block stored where it does not wrap around: its bytes in order from its address on, and nothing
      else changes. */
  lemma {:induction false} StorePlain(dev: Memory, b: Block, a: int)
    requires b.address + |b.data| <= TWO_64 && 0 <= a < TWO_64
    ensures Store(dev, b)(a) == if b.address <= a < b.address + |b.data| then b.data[a - b.address] else dev(a)
  {
    OffsetPlain(a, b.address);
  }

  /** The distance, without the remainder. */
  lemma {:induction false} OffsetPlain(a: int, address: int)
    requires address - TWO_64 <= a < address + TWO_64
    ensures Offset(a, address) == if a >= address then a - address else a - address + TWO_64
  {
  }

  /** The same for all that a planner has sent, from `address` on once around all the addresses. */
  lemma {:induction false} FilledPlain(now: Memory, dev: Memory, address: int, m: Memory, start: int, len: nat)
    requires Filled(now, dev, address, m, start, len)
    ensures forall a :: address <= a < address + TWO_64 ==>
      now(a) == if a < address + len then m(start + (a - address)) else dev(a)
  {
    forall a | address <= a < address + TWO_64
      ensures now(a) == if a < address + len then m(start + (a - address)) else dev(a)
    {
      OffsetPlain(a, address);
    }
  }

  /** All three writers, from any states of three devices, leave the bytes of the buffer over its range
      in each of them, however they cut it into blocks. */
  method SameDevice(sp1: SerialPort, sp2: SerialPort, sp3: SerialPort, address: int, m: Memory, start: int, bytes: int)
    requires sp1 != sp2 && sp2 != sp3 && sp1 != sp3 && bytes < TWO_64 / 2
    modifies sp1, sp2, sp3
    ensures forall a :: address <= a < address + bytes ==>
      sp1.Held()(a) == sp2.Held()(a) == sp3.Held()(a) == m(start + (a - address))
    ensures forall a :: address + (if bytes > 0 then bytes + 768 else 0) <= a < address + TWO_64 ==>
      && sp1.Held()(a) == old(sp1.Held())(a)
      && sp2.Held()(a) == old(sp2.Held())(a)
      && sp3.Held()(a) == old(sp3.Held())(a)
  {
    hide Filled, Contiguous, Sends, Device, Offset;
    ghost var d1, d2, d3 := sp1.Held(), sp2.Held(), sp3.Held();
    ghost var p1, l1 := WriteBytes(sp1, address, m, start, bytes);
    ghost var p2, l2 := WriteBytes16(sp2, address, m, start, bytes);
    ghost var p3, l3 := WriteBytes256(sp3, address, m, start, bytes);
    SentBounds(bytes);
    FilledPlain(sp1.Held(), d1, address, m, start, l1);
    FilledPlain(sp2.Held(), d2, address, m, start, l2);
    FilledPlain(sp3.Held(), d3, address, m, start, l3);
  }

  /** A buffer of 16 bytes: 64 bytes of the device are overwritten, with what comes after the buffer. */
  method Overrun(sp: SerialPort, address: int, m: Memory, start: int)
    modifies sp
    ensures forall a :: address <= a < address + 64 ==> sp.Held()(a) == m(start + (a - address))
  {
    hide Device, Offset, Contiguous, Sends, Filled;
    ghost var dev := sp.Held();
    ghost var plan, len := WriteBytes16(sp, address, m, start, 16);
    assert len == 64;
    FilledPlain(sp.Held(), dev, address, m, start, len);
  }
}
