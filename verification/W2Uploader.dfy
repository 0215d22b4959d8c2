/** The W2 uploader: its word encoder and the chunk loop of `upload`. */
module W2Uploader {
  import opened HexText
  import opened Requests
  import BoardWriter

  datatype Result<T> = Success(value: T) | Failure(error: string)

  /** The address in every request of this uploader. */
  const FIXED_ADDRESS := 0x1000_0000

  /** The request for a chunk of a file. */
  ghost function RequestFor(data: seq<Byte>): string {
    Render(Block(FIXED_ADDRESS, data))
  }

  /** The bytes that a `char` buffer holds. */
  function Bytes(buffer: seq<Char>): (s: seq<Byte>)
    ensures |s| == |buffer|
  {
    seq(|buffer|, i requires 0 <= i < |buffer| => ToByte(buffer[i]))
  }

  /** The four bytes of the word with index `w`, the last one first. */
  method WordAt(buffer: seq<Char>, i: nat, ghost w: nat) returns (s: string)
    requires i == 4 * w && i + 4 <= |buffer|
    ensures s == WordText(Bytes(buffer), w)
  {
    s := "";
    var j := 3;
    while j >= 0
      invariant -1 <= j <= 3
      invariant s == WordText(Bytes(buffer), w)[..2 * (3 - j)]
    {
      EncodersAgree(0, buffer[i + j]);
      s := s + CharToHex(buffer[i + j]);
      j := j - 1;
    }
  }

  /** The loop over the words. */
  method Words(head: string, buffer: seq<Char>, ghost n: nat) returns (text: string)
    requires |buffer| == 4 * n
    ensures text == head + Written(Bytes(buffer), n, n, "")
  {
    ghost var data, w := Bytes(buffer), 0;
    text := head;
    var i := 0;
    assert head + "" == head;
    while i < |buffer|
      invariant w <= n && i == 4 * w && text == head + Written(data, n, w, "")
    {
      var word := WordAt(buffer, i, w);
      text := Appended(head, text, word, i + 4 < |buffer|, Written(data, n, w, ""));
      i := i + 4;
      w := w + 1;
    }
    assert w == n;
  }

  /** The word, and a separator unless it is the last. */
  method Appended(ghost head: string, text0: string, word: string, more: bool, ghost done: string)
    returns (text: string)
    requires text0 == head + done
    ensures text == head + (done + word + if more then " " else "")
  {
    text := text0 + word;
    if more {
      text := text + " ";
    }
  }

  /** `bytesToLittleEndianHexString`. For at least one word this is the request that `write_words`
      builds for address 10000000; without any word it is terminated nevertheless. */
  method BytesToLittleEndian(buffer: seq<Char>) returns (r: Result<string>)
    ensures r.Failure? <==> |buffer| % 4 != 0
    ensures r.Success? && buffer != [] ==> r.value == RequestFor(Bytes(buffer))
    ensures buffer == [] ==> r == Success("w10000000 " + Hex(0) + " " + "\r")
  {
    if |buffer| % 4 != 0 {
      return Failure("Buffer size must be word-aligned");
    }
    var numWords := |buffer| / 4;
    var head := "w10000000 " + Hex(numWords) + " ";
    var text := Words(head, buffer, numWords);
    if buffer != [] {
      Terminated(Bytes(buffer), numWords);
    } else {
      assert head + "" == head;
    }
    r := Success(text + "\r");
  }

  lemma {:induction false} Terminated(data: seq<Byte>, n: nat)
    requires |data| == 4 * n && n > 0
    ensures RequestFor(data) == "w10000000 " + Hex(n) + " " + Written(data, n, n, "") + "\r"
  {
    FixedAddress();
    WrittenAll(Block(FIXED_ADDRESS, data), n);
    WrittenWords(data, n, "");
    WrittenWords(data, n, "\r");
    FixedHead(Hex(n), Join(WordTexts(data)));
  }

  lemma {:induction false} FixedHead(n: string, words: string)
    ensures "w" + "10000000" + " " + n + " " + (words + "\r") == "w10000000 " + n + " " + (words + "") + "\r"
  {
    assert "w" + "10000000" + " " == "w10000000 ";
  }

  lemma {:induction false} FixedAddress()
    ensures Hex(FIXED_ADDRESS) == "10000000"
  {
    assert Hex(0x1) == "1";
    assert Hex(0x10) == "10";
    assert Hex(0x100) == "100";
    assert Hex(0x1000) == "1000";
    assert Hex(0x1_0000) == "10000";
    assert Hex(0x10_0000) == "100000";
    assert Hex(0x100_0000) == "1000000";
  }

  /** The two encoders, given the same bytes and the address of this uploader, agree on every request
      with at least one word, and only on those: without any word `write_words` leaves out the end. */
  method Compare(buffer: seq<Char>, m: BoardWriter.Memory, start: int) returns (same: bool)
    requires |buffer| % 4 == 0 && Bytes(buffer) == BoardWriter.Slice(m, start, |buffer|)
    ensures same <==> buffer != []
  {
    hide Render, Decode;
    var words := BoardWriter.Request(FIXED_ADDRESS, m, start, |buffer| / 4);
    var bytes := BytesToLittleEndian(buffer);
    if buffer == [] {
      LastChar(words, "w" + Hex(FIXED_ADDRESS) + " " + Hex(0), ' ');
      LastChar(bytes.value, "w10000000 " + Hex(0) + " ", '\r');
    }
    same := words == bytes.value;
  }

  lemma {:induction false} LastChar(s: string, init: string, c: char)
    requires s == init + [c]
    ensures s[|s| - 1] == c
  {
  }

  // ---------- the upload ----------

  /** What the operating system answers to the write with the given number, for a buffer of the given
      size: how many bytes it has taken, or a negative number. */
  type Answers = (nat, nat) -> int

  /** What goes out of a buffer: nothing if the write fails, and not all of it if the write is short. */
  function Out(os: Answers, call: nat, buffer: string): (s: seq<string>)
    ensures |s| <= 1
  {
    var taken := os(call, |buffer|);
    if taken < 0 then [] else if taken < |buffer| then [buffer[..taken]] else [buffer]
  }

  /** What goes out of several buffers that are written one after the other. */
  ghost function Reached(os: Answers, call: nat, buffers: seq<string>): seq<string> {
    if buffers == [] then []
    else
      var k := |buffers| - 1;
      Reached(os, call, buffers[..k]) + Out(os, call + k, buffers[k])
  }

  /** How many of the buffers are written before a write fails. */
  ghost function Taken(os: Answers, call: nat, buffers: seq<string>): (n: nat)
    ensures n <= |buffers|
    decreases |buffers|
  {
    if buffers == [] || os(call, |buffers[0]|) < 0 then 0 else 1 + Taken(os, call + 1, buffers[1..])
  }

  /** The serial port client: the number of writes so far and what has gone out. */
  class Client {
    const os: Answers
    var calls: nat
    var sent: seq<string>

    constructor (os: Answers)
      ensures this.os == os && calls == 0 && sent == []
    {
      this.os := os;
      calls, sent := 0, [];
    }

    /** `write`: false stands for the exception. A short write passes unnoticed, and so does a missing
        acknowledgement. */
    method Write(buffer: string, size: nat) returns (ok: bool)
      requires size <= |buffer|
      modifies this
      ensures ok <==> os(old(calls), size) >= 0
      ensures calls == old(calls) + 1 && sent == old(sent) + Out(os, old(calls), buffer[..size])
      ensures var taken := os(old(calls), size);
        sent == old(sent) + if taken < 0 then [] else [buffer[..if taken < size then taken else size]]
    {
      ghost var taken := os(calls, size);
      assert 0 <= taken < size ==> buffer[..size][..taken] == buffer[..taken];
      sent := sent + Out(os, calls, buffer[..size]);
      ok := os(calls, size) >= 0;
      calls := calls + 1;
    }
  }

  const CONSOLE_MODE := "a"
  const DISABLE_SPECIAL_SEQUENCE := "w1f800004 1 40\r"
  const UNLOCK_FLASH := "w1f800b07 1 a5\r"
  const ERASE_FLASH := "w10300000 1 00\r"

  /** What `setUpFlash` writes. */
  const FLASH: seq<string> := [CONSOLE_MODE, DISABLE_SPECIAL_SEQUENCE, UNLOCK_FLASH, ERASE_FLASH]

  /** What is written before the file. */
  const STARTUP: seq<string> := ["\n"] + FLASH

  /** The size of the next chunk when `remaining` bytes are left. */
  function WriteSize(remaining: nat): nat {
    if remaining > 1024 then 1024 else remaining
  }

  /** The pieces in which a file is sent: 1024 bytes each, and the rest in the last one. */
  ghost function Chunks(data: seq<Byte>): seq<seq<Byte>>
    decreases |data|
  {
    if data == [] then []
    else
      var n := WriteSize(|data|);
      [data[..n]] + Chunks(data[n..])
  }

  ghost function RequestsFor(chunks: seq<seq<Byte>>): (requests: seq<string>)
    ensures |requests| == |chunks|
  {
    seq(|chunks|, i requires 0 <= i < |chunks| => RequestFor(chunks[i]))
  }

  lemma {:induction false} BytesSlice(buffer: seq<Char>, i: nat, n: nat)
    requires i + n <= |buffer|
    ensures Bytes(buffer[i..i + n]) == Bytes(buffer)[i..][..n]
    ensures Bytes(buffer)[i..][n..] == Bytes(buffer)[i + n..]
  {
  }

  lemma {:induction false} ReachedNone(was: seq<string>, os: Answers, call: nat)
    ensures was + Reached(os, call, []) == was
  {
  }

  /** One more write. */
  lemma {:induction false} ReachedMore(os: Answers, call: nat, buffers: seq<string>, b: string)
    ensures Reached(os, call, buffers + [b]) == Reached(os, call, buffers) + Out(os, call + |buffers|, b)
  {
    assert (buffers + [b])[..|buffers|] == buffers;
  }

  /** No write fails if and only if the operating system never answers with a negative number. */
  lemma {:induction false} AllTaken(os: Answers, call: nat, buffers: seq<string>)
    ensures Taken(os, call, buffers) == |buffers|
      <==> forall i :: 0 <= i < |buffers| ==> os(call + i, |buffers[i]|) >= 0
    decreases |buffers|
  {
    if buffers == [] {
    } else {
      AllTaken(os, call + 1, buffers[1..]);
      var rest := buffers[1..];
      if forall i :: 0 <= i < |buffers| ==> os(call + i, |buffers[i]|) >= 0 {
        assert os(call + 0, |buffers[0]|) >= 0;
        forall i | 0 <= i < |rest|
          ensures os(call + 1 + i, |rest[i]|) >= 0
        {
          assert rest[i] == buffers[i + 1] && os(call + (i + 1), |buffers[i + 1]|) >= 0;
        }
      }
      if Taken(os, call, buffers) == |buffers| {
        forall i | 0 <= i < |buffers|
          ensures os(call + i, |buffers[i]|) >= 0
        {
          if i > 0 {
            assert rest[i - 1] == buffers[i] && os(call + 1 + (i - 1), |rest[i - 1]|) >= 0;
          }
        }
      }
    }
  }

  lemma {:induction false} TakenMore(os: Answers, call: nat, buffers: seq<string>, n: nat)
    requires n < |buffers| && Taken(os, call, buffers) >= n
    ensures Taken(os, call, buffers) > n <==> os(call + n, |buffers[n]|) >= 0
    decreases n
  {
    if n == 0 {
    } else {
      TakenMore(os, call + 1, buffers[1..], n - 1);
    }
  }

  lemma {:induction false} Regroup<T>(a: seq<T>, b: seq<T>, c: seq<T>)
    ensures (a + b) + c == a + (b + c)
  {
  }

  /** The next one of several buffers is written. */
  method WriteNext(client: Client, buffer: string, size: nat, ghost call: nat, ghost buffers: seq<string>,
                   ghost n: nat, ghost was: seq<string>)
    returns (ok: bool)
    requires n < |buffers| && |buffer| == size && buffers[n] == buffer && Taken(client.os, call, buffers) >= n
    requires client.calls == call + n && client.sent == was + Reached(client.os, call, buffers[..n])
    modifies client
    ensures client.calls == call + n + 1 && client.sent == was + Reached(client.os, call, buffers[..n + 1])
    ensures ok <==> Taken(client.os, call, buffers) > n
    ensures !ok ==> client.sent == was + Reached(client.os, call, buffers[..n])
  {
    TakenMore(client.os, call, buffers, n);
    ReachedMore(client.os, call, buffers[..n], buffer);
    assert buffers[..n] + [buffer] == buffers[..n + 1];
    Regroup(was, Reached(client.os, call, buffers[..n]), Out(client.os, call + n, buffer));
    assert buffer[..size] == buffer;
    ok := client.Write(buffer, size);
  }

  /** `sendStart`. */
  method SendStart(client: Client) returns (ok: bool)
    modifies client
    ensures ok <==> Taken(client.os, old(client.calls), STARTUP) >= 1
    ensures ok ==> client.calls == old(client.calls) + 1
    ensures client.sent == old(client.sent) + Reached(client.os, old(client.calls), STARTUP[..if ok then 1 else 0])
  {
    ok := WriteNext(client, "\n", 1, client.calls, STARTUP, 0, client.sent);
  }

  /** `setUpFlash`, after `sendStart`. */
  method SetUpFlash(client: Client, ghost call: nat, ghost was: seq<string>) returns (ok: bool)
    requires Taken(client.os, call, STARTUP) >= 1
    requires client.calls == call + 1 && client.sent == was + Reached(client.os, call, STARTUP[..1])
    modifies client
    ensures ok <==> Taken(client.os, call, STARTUP) == |STARTUP|
    ensures ok ==> client.calls == call + |STARTUP|
    ensures client.sent == was + Reached(client.os, call, STARTUP[..Taken(client.os, call, STARTUP)])
  {
    ok := WriteNext(client, CONSOLE_MODE, 1, call, STARTUP, 1, was);
    if !ok { return; }
    ok := WriteNext(client, DISABLE_SPECIAL_SEQUENCE, 15, call, STARTUP, 2, was);
    if !ok { return; }
    ok := WriteNext(client, UNLOCK_FLASH, 15, call, STARTUP, 3, was);
    if !ok { return; }
    ok := WriteNext(client, ERASE_FLASH, 15, call, STARTUP, 4, was);
  }

  // ---------- what the commands are ----------

  lemma {:induction false} Value1f800()
    ensures HexValue("1f800") == 0x1f800
  {
    Digits("", '1', 0x0, 1);
    assert "" + ['1'] == "1";
    Digits("1", 'f', 0x1, 15);
    assert "1" + ['f'] == "1f";
    Digits("1f", '8', 0x1f, 8);
    assert "1f" + ['8'] == "1f8";
    Digits("1f8", '0', 0x1f8, 0);
    assert "1f8" + ['0'] == "1f80";
    Digits("1f80", '0', 0x1f80, 0);
    assert "1f80" + ['0'] == "1f800";
  }

  lemma {:induction false} Value1f800004()
    ensures HexValue("1f800004") == 0x1f80_0004 && HexValue("40") == 0x40
  {
    Value1f800();
    Digits("1f800", '0', 0x1f800, 0);
    assert "1f800" + ['0'] == "1f8000";
    Digits("1f8000", '0', 0x1f8000, 0);
    assert "1f8000" + ['0'] == "1f80000";
    Digits("1f80000", '4', 0x1f80000, 4);
    assert "1f80000" + ['4'] == "1f800004";
    Digits("", '4', 0x0, 4);
    assert "" + ['4'] == "4";
    Digits("4", '0', 0x4, 0);
    assert "4" + ['0'] == "40";
  }

  lemma {:induction false} Value1f800b07()
    ensures HexValue("1f800b07") == 0x1f80_0b07 && HexValue("a5") == 0xa5
  {
    Value1f800();
    Digits("1f800", 'b', 0x1f800, 11);
    assert "1f800" + ['b'] == "1f800b";
    Digits("1f800b", '0', 0x1f800b, 0);
    assert "1f800b" + ['0'] == "1f800b0";
    Digits("1f800b0", '7', 0x1f800b0, 7);
    assert "1f800b0" + ['7'] == "1f800b07";
    Digits("", 'a', 0x0, 10);
    assert "" + ['a'] == "a";
    Digits("a", '5', 0xa, 5);
    assert "a" + ['5'] == "a5";
  }

  lemma {:induction false} Value10300000()
    ensures HexValue("10300000") == 0x1030_0000 && HexValue("00") == 0
  {
    Digits("", '1', 0x0, 1);
    assert "" + ['1'] == "1";
    Digits("1", '0', 0x1, 0);
    assert "1" + ['0'] == "10";
    Digits("10", '3', 0x10, 3);
    assert "10" + ['3'] == "103";
    Digits("103", '0', 0x103, 0);
    assert "103" + ['0'] == "1030";
    Digits("1030", '0', 0x1030, 0);
    assert "1030" + ['0'] == "10300";
    Digits("10300", '0', 0x10300, 0);
    assert "10300" + ['0'] == "103000";
    Digits("103000", '0', 0x103000, 0);
    assert "103000" + ['0'] == "1030000";
    Digits("1030000", '0', 0x1030000, 0);
    assert "1030000" + ['0'] == "10300000";
    Digits("", '0', 0x0, 0);
    assert "" + ['0'] == "0";
    Digits("0", '0', 0x0, 0);
    assert "0" + ['0'] == "00";
  }

  lemma {:induction false} CommandText(command: string, address: string, word: string)
    requires NoBlank(address) && NoBlank(word) && command == "w" + address + " 1 " + word + "\r"
    ensures Decode(command) == Some(Block(HexValue(address), WordBytes(HexValue(word))))
  {
    OneWord(address, word);
  }

  /** What goes out before the file: a line break, the switch to console mode, and three requests. The
      first disables the special sequence, the second unlocks the flash and the third erases it. */
  lemma {:induction false} StartupCommands()
    ensures |STARTUP| == 5 && STARTUP[0] == "\n" && STARTUP[1] == "a"
    ensures STARTUP[2] == "w1f800004 1 40\r" && Decode(STARTUP[2]) == Some(Block(0x1f80_0004, [0x40, 0, 0, 0]))
    ensures STARTUP[3] == "w1f800b07 1 a5\r" && Decode(STARTUP[3]) == Some(Block(0x1f80_0b07, [0xa5, 0, 0, 0]))
    ensures STARTUP[4] == "w10300000 1 00\r" && Decode(STARTUP[4]) == Some(Block(0x1030_0000, [0, 0, 0, 0]))
  {
    hide Decode, HexValue;
    Value1f800004();
    Value1f800b07();
    Value10300000();
    CommandText("w1f800004 1 40\r", "1f800004", "40");
    CommandText("w1f800b07 1 a5\r", "1f800b07", "a5");
    CommandText("w10300000 1 00\r", "10300000", "00");
  }

  /** On a port that takes everything, `sendStart` and `setUpFlash` send these five texts in this order. */
  method StartUpWhole(client: Client) returns (ok: bool)
    requires forall call: nat, size: nat :: client.os(call, size) >= size
    modifies client
    ensures ok && client.sent ==
      old(client.sent) + ["\n", "a", "w1f800004 1 40\r", "w1f800b07 1 a5\r", "w10300000 1 00\r"]
  {
    hide Reached, Taken;
    ghost var call, was := client.calls, client.sent;
    AllReached(client.os, call, STARTUP);
    AllTaken(client.os, call, STARTUP);
    StartupCommands();
    ok := SendStart(client);
    ok := SetUpFlash(client, call, was);
    assert STARTUP[..5] == STARTUP;
    assert STARTUP == ["\n", "a", "w1f800004 1 40\r", "w1f800b07 1 a5\r", "w10300000 1 00\r"];
  }

  lemma {:induction false} DropTwice<T>(s: seq<T>, i: nat, n: nat)
    requires i + n <= |s|
    ensures s[i..][n..] == s[i + n..]
  {
  }

  lemma {:induction false} Onward(done: seq<seq<Byte>>, rest: seq<Byte>)
    requires rest != []
    ensures var n := WriteSize(|rest|);
      && (done + [rest[..n]]) + Chunks(rest[n..]) == done + Chunks(rest)
      && RequestsFor(done + [rest[..n]]) == RequestsFor(done) + [RequestFor(rest[..n])]
  {
  }

  /** One round of the chunk loop: the chunk at `offset` is formatted and written; an exception from the
      write is caught and reported. */
  method SendChunk(client: Client, buffer: seq<Char>, offset: nat, writeSize: nat,
                   ghost rest: seq<Byte>, ghost call: nat, ghost was: seq<string>, ghost done: seq<seq<Byte>>)
    returns (ghost done': seq<seq<Byte>>)
    requires offset < |buffer| && rest == Bytes(buffer)[offset..]
    requires writeSize == WriteSize(|rest|) && writeSize % 4 == 0
    requires client.calls == call + |done|
    requires client.sent == was + Reached(client.os, call, RequestsFor(done))
    modifies client
    ensures client.calls == call + |done'|
    ensures client.sent == was + Reached(client.os, call, RequestsFor(done'))
    ensures done' + Chunks(rest[writeSize..]) == done + Chunks(rest)
  {
    hide Render, Bytes, RequestsFor, Chunks, Reached, Out;
    BytesSlice(buffer, offset, writeSize);
    Onward(done, rest);
    var fmtBuffer := BytesToLittleEndian(buffer[offset..offset + writeSize]);
    var text := fmtBuffer.value;
    ReachedMore(client.os, call, RequestsFor(done), text);
    Regroup(was, Reached(client.os, call, RequestsFor(done)), Out(client.os, call + |done|, text));
    assert text[..|text|] == text;
    var ok := client.Write(text, |text|);
    done' := done + [rest[..writeSize]];
  }

  /** The chunk loop of `upload`. */
  method SendChunks(client: Client, buffer: seq<Char>)
    requires |buffer| % 4 == 0
    modifies client
    ensures client.sent ==
      old(client.sent) + Reached(client.os, old(client.calls), RequestsFor(Chunks(Bytes(buffer))))
  {
    hide Render, Reached;
    var offset := 0;
    var chunkSize := 256 * 4;
    ghost var data, done := Bytes(buffer), [];
    assert data[0..] == data && done + Chunks(data) == Chunks(data);
    assert RequestsFor(done) == [];
    ReachedNone(client.sent, client.os, client.calls);
    while offset < |buffer|
      invariant offset <= |buffer| && offset % 4 == 0
      invariant client.calls == old(client.calls) + |done|
      invariant client.sent == old(client.sent) + Reached(client.os, old(client.calls), RequestsFor(done))
      invariant done + Chunks(data[offset..]) == Chunks(data)
    {
      var remainingSize := |buffer| - offset;
      var writeSize := if remainingSize > chunkSize then chunkSize else remainingSize;
      DropTwice(data, offset, writeSize);
      done := SendChunk(client, buffer, offset, writeSize, data[offset..], old(client.calls), old(client.sent), done);
      offset := offset + writeSize;
    }
    assert data[offset..] == [] && done + [] == done;
  }

  /** `upload`, once the file has been read; `flushErr` is what the flush returns. */
  method Upload(client: Client, buffer: seq<Char>, flushErr: bool) returns (r: Result<()>)
    modifies client
    ensures r.Success? <==> |buffer| % 4 == 0 && !flushErr && Taken(client.os, old(client.calls), STARTUP) == |STARTUP|
    ensures client.sent == old(client.sent) + Reached(client.os, old(client.calls),
      if |buffer| % 4 != 0 || flushErr then []
      else if r.Failure? then STARTUP[..Taken(client.os, old(client.calls), STARTUP)]
      else STARTUP + RequestsFor(Chunks(Bytes(buffer))))
  {
    hide Render, Reached, Taken;
    ReachedNone(client.sent, client.os, client.calls);
    if |buffer| % 4 != 0 {
      return Failure("binary size must be word-aligned");
    }
    if flushErr {
      return Failure("Failed to flush serial port, not uploading. Terminating: ");
    }
    var ok := SendStart(client);
    if !ok {
      return Failure("Write failed: ");
    }
    ok := SetUpFlash(client, old(client.calls), old(client.sent));
    if !ok {
      return Failure("Write failed: ");
    }
    assert STARTUP[..|STARTUP|] == STARTUP;
    SendChunks(client, buffer);
    ReachedBoth(old(client.sent), client.os, old(client.calls), STARTUP, RequestsFor(Chunks(Bytes(buffer))));
    r := Success(());
  }

  lemma {:induction false} ReachedBoth(was: seq<string>, os: Answers, call: nat, a: seq<string>, b: seq<string>)
    ensures was + Reached(os, call, a + b) == (was + Reached(os, call, a)) + Reached(os, call + |a|, b)
  {
    hide Out;
    if b == [] {
      assert a + b == a && (was + Reached(os, call, a)) + [] == was + Reached(os, call, a);
    } else {
      var k := |b| - 1;
      var out := Out(os, call + |a| + k, b[k]);
      ReachedBoth(was, os, call, a, b[..k]);
      assert a + b == (a + b[..k]) + [b[k]] && |a + b[..k]| == |a| + k;
      ReachedMore(os, call, a + b[..k], b[k]);
      Regroup(was, Reached(os, call, a + b[..k]), out);
      Regroup(was + Reached(os, call, a), Reached(os, call + |a|, b[..k]), out);
    }
  }

  /** Everything has gone out if and only if every single write took its whole buffer, although an upload
      also succeeds where the writes of chunks fail or are short. */
  lemma {:induction false} AllReached(os: Answers, call: nat, buffers: seq<string>)
    ensures |Reached(os, call, buffers)| <= |buffers|
    ensures Reached(os, call, buffers) == buffers
      <==> forall i :: 0 <= i < |buffers| ==> os(call + i, |buffers[i]|) >= |buffers[i]|
  {
    hide Reached, Out;
    if buffers == [] {
      ReachedNone([], os, call);
    } else {
      var k := |buffers| - 1;
      AllReached(os, call, buffers[..k]);
      LastReached(os, call, buffers);
      assert forall i :: 0 <= i < k ==> buffers[..k][i] == buffers[i];
    }
  }

  lemma {:induction false} LastReached(os: Answers, call: nat, buffers: seq<string>)
    requires buffers != [] && |Reached(os, call, buffers[..|buffers| - 1])| <= |buffers| - 1
    ensures |Reached(os, call, buffers)| <= |buffers|
    ensures var k := |buffers| - 1;
      Reached(os, call, buffers) == buffers
      <==> Reached(os, call, buffers[..k]) == buffers[..k] && os(call + k, |buffers[k]|) >= |buffers[k]|
  {
    var k := |buffers| - 1;
    var init, last := Reached(os, call, buffers[..k]), Out(os, call + k, buffers[k]);
    if init + last == buffers {
      assert |init| == k && |last| == 1;
      assert init == buffers[..k];
      assert last[0] == buffers[k];
    }
    if init == buffers[..k] && last == [buffers[k]] {
      assert init + last == buffers;
    }
  }

  /** An upload that succeeds although the only chunk was never sent. */
  method LostChunk() returns (client: Client, r: Result<()>)
    ensures r.Success? && client.sent == STARTUP
  {
    client := new Client((call: nat, size: nat) => if call < 5 then size else -1);
    ghost var os, data := client.os, Bytes([0, 0, 0, 0]);
    AllTaken(os, 0, STARTUP);
    r := Upload(client, [0, 0, 0, 0], false);
    OneChunk(data);
    ReachedMore(os, 0, STARTUP, RequestFor(data));
    AllReached(os, 0, STARTUP);
  }

  lemma {:induction false} OneChunk(data: seq<Byte>)
    requires |data| == 4
    ensures RequestsFor(Chunks(data)) == [RequestFor(data)]
  {
    assert data[..4] == data && data[4..] == [];
    assert Chunks(data[4..]) == [];
  }

  /** The file, as it is read into a buffer of plain `char`s. */
  function AsChars(file: seq<Byte>): (buffer: seq<Char>)
    ensures |buffer| == |file| && Bytes(buffer) == file
  {
    seq(|file|, i requires 0 <= i < |file| => FromByte(file[i]))
  }

  /** The requests for pieces of a file, as a board reads them. */
  ghost predicate Carries(requests: seq<string>, chunks: seq<seq<Byte>>) {
    && |requests| == |chunks|
    && forall i :: 0 <= i < |chunks| ==>
      && Decode(requests[i]) == Some(Block(0x1000_0000, chunks[i]))
      && 4 <= |chunks[i]| <= 1024
      && (i + 1 < |chunks| ==> |chunks[i]| == 1024)
  }

  lemma {:induction false} RequestsCarry(data: seq<Byte>)
    requires |data| % 4 == 0
    ensures Carries(RequestsFor(Chunks(data)), Chunks(data)) && Joined(Chunks(data)) == data
  {
    hide Decode;
    WholeFile(data);
    forall i | 0 <= i < |Chunks(data)|
      ensures Decode(RequestsFor(Chunks(data))[i]) == Some(Block(0x1000_0000, Chunks(data)[i]))
      ensures 4 <= |Chunks(data)[i]| <= 1024
      ensures i + 1 < |Chunks(data)| ==> |Chunks(data)[i]| == 1024
    {
      ReadBack(data, i);
      ChunkSizes(data, i);
    }
  }

  /** `upload` of a file of bytes over a port that takes everything: the file is cut into chunks of 1024
      bytes and a last one of at most that size, and after the start-up commands one request for each of
      them goes out, in this order, from which a board reads exactly the bytes of the chunk. */
  method UploadWhole(client: Client, file: seq<Byte>) returns (r: Result<()>, ghost chunks: seq<seq<Byte>>)
    requires |file| % 4 == 0 && forall call: nat, size: nat :: client.os(call, size) >= size
    modifies client
    ensures r.Success? && Joined(chunks) == file
    ensures |client.sent| == |old(client.sent)| + 5 + |chunks|
    ensures client.sent[..|old(client.sent)|] == old(client.sent)
    ensures client.sent[|old(client.sent)|..|old(client.sent)| + 5] ==
      ["\n", "a", "w1f800004 1 40\r", "w1f800b07 1 a5\r", "w10300000 1 00\r"]
    ensures Carries(client.sent[|old(client.sent)| + 5..], chunks)
  {
    hide Reached, Taken, RequestsFor, Chunks, Carries;
    ghost var call := client.calls;
    AllTaken(client.os, call, STARTUP);
    StartupCommands();
    RequestsCarry(file);
    chunks := Chunks(file);
    AllReached(client.os, call, STARTUP + RequestsFor(chunks));
    r := Upload(client, AsChars(file), false);
    assert STARTUP == ["\n", "a", "w1f800004 1 40\r", "w1f800b07 1 a5\r", "w10300000 1 00\r"];
    ThreeParts(old(client.sent), STARTUP, RequestsFor(chunks));
  }

  lemma {:induction false} ThreeParts<T>(a: seq<T>, b: seq<T>, c: seq<T>)
    ensures var s := a + (b + c);
      && |s| == |a| + |b| + |c| && s[..|a|] == a && s[|a|..|a| + |b|] == b && s[|a| + |b|..] == c
  {
  }

  /** Every chunk holds 1 to 256 whole words, and every chunk but the last one 256. */
  lemma {:induction false} ChunkSizes(data: seq<Byte>, i: nat)
    requires |data| % 4 == 0 && i < |Chunks(data)|
    ensures 4 <= |Chunks(data)[i]| <= 1024 && |Chunks(data)[i]| % 4 == 0
    ensures i + 1 < |Chunks(data)| ==> |Chunks(data)[i]| == 1024
    decreases i
  {
    if i == 0 {
    } else {
      ChunkSizes(data[WriteSize(|data|)..], i - 1);
    }
  }

  ghost function Joined(chunks: seq<seq<Byte>>): seq<Byte> {
    if chunks == [] then [] else chunks[0] + Joined(chunks[1..])
  }

  /** The chunks put together are the whole file. */
  lemma {:induction false} WholeFile(data: seq<Byte>)
    ensures Joined(Chunks(data)) == data
    decreases |data|
  {
    if data == [] {
    } else {
      var n := WriteSize(|data|);
      WholeFile(data[n..]);
      assert Chunks(data)[1..] == Chunks(data[n..]);
      assert data == data[..n] + data[n..];
    }
  }

  /** A reader of the requests recovers every chunk. */
  lemma {:induction false} ReadBack(data: seq<Byte>, i: nat)
    requires |data| % 4 == 0 && i < |Chunks(data)|
    ensures Decode(RequestsFor(Chunks(data))[i]) == Some(Block(FIXED_ADDRESS, Chunks(data)[i]))
  {
    ChunkSizes(data, i);
    DecodeRender(Block(FIXED_ADDRESS, Chunks(data)[i]));
  }
}
