/** The write request that the board's monitor reads: an address, a word count and the words. */
module Requests {
  import opened HexText

  datatype Option<T> = None | Some(value: T)

  /** The bytes of a write request, from the byte at `address` on. */
  datatype Block = Block(address: nat, data: seq<Byte>)

  /** The word with index `w`, most significant byte first. */
  function WordText(data: seq<Byte>, w: nat): (s: string)
    requires 4 * w + 4 <= |data|
    ensures |s| == 8 && forall c <- s :: IsHexDigit(c)
  {
    ByteText(data[4 * w + 3]) + ByteText(data[4 * w + 2]) + ByteText(data[4 * w + 1]) + ByteText(data[4 * w])
  }

  function WordTexts(data: seq<Byte>): seq<string> {
    seq(|data| / 4, w requires 0 <= w < |data| / 4 => WordText(data, w))
  }

  /** The fields with single blanks between them. */
  function Join(fields: seq<string>): string {
    if |fields| == 0 then ""
    else if |fields| == 1 then fields[0]
    else Join(fields[..|fields| - 1]) + " " + fields[|fields| - 1]
  }

  /** The address, the word count and the words. */
  function Fields(b: Block): seq<string> {
    [Hex(b.address), Hex(|b.data| / 4)] + WordTexts(b.data)
  }

  /** The text of a request. */
  function Render(b: Block): string {
    "w" + Join(Fields(b)) + "\r"
  }

  // ---------- reading a request back ----------

  /** The fields of a text, at its blanks. */
  function Split(s: string): (fields: seq<string>)
    ensures |fields| >= 1
  {
    if s == "" then [""]
    else
      var rest := Split(s[1..]);
      if s[0] == ' ' then [""] + rest else [[s[0]] + rest[0]] + rest[1..]
  }

  /** The bytes of a word, least significant first. */
  function WordBytes(v: nat): seq<Byte> {
    [v % 256, v / 0x100 % 256, v / 0x1_0000 % 256, v / 0x100_0000 % 256]
  }

  function AllBytes(words: seq<string>): seq<Byte> {
    if words == [] then [] else AllBytes(words[..|words| - 1]) + WordBytes(HexValue(words[|words| - 1]))
  }

  /** What a board makes of a request; nothing if the request is not complete. */
  function Decode(s: string): Option<Block> {
    if |s| < 2 || s[0] != 'w' || s[|s| - 1] != '\r' then None
    else
      var fields := Split(s[1..|s| - 1]);
      if |fields| < 2 || HexValue(fields[1]) != |fields| - 2 then None
      else Some(Block(HexValue(fields[0]), AllBytes(fields[2..])))
  }

  ghost predicate NoBlank(s: string) {
    forall c <- s :: c != ' '
  }

  lemma {:induction false} SplitOne(f: string)
    requires NoBlank(f)
    ensures Split(f) == [f]
  {
    if f == "" {
    } else {
      assert f[0] in f;
      assert forall c <- f[1..] :: c in f;
      SplitOne(f[1..]);
      assert [f[0]] + f[1..] == f;
    }
  }

  lemma {:induction false} SplitMore(s: string, f: string)
    requires NoBlank(f)
    ensures Split(s + " " + f) == Split(s) + [f]
  {
    var t := s + " " + f;
    if s == "" {
      SplitOne(f);
      assert t[1..] == f;
    } else {
      SplitMore(s[1..], f);
      assert t[1..] == s[1..] + " " + f;
    }
  }

  lemma {:induction false} SplitJoin(fields: seq<string>)
    requires |fields| >= 1 && forall f <- fields :: NoBlank(f)
    ensures Split(Join(fields)) == fields
  {
    var n := |fields| - 1;
    assert fields[n] in fields;
    if n == 0 {
      SplitOne(fields[0]);
    } else {
      assert forall f <- fields[..n] :: f in fields;
      SplitJoin(fields[..n]);
      SplitMore(Join(fields[..n]), fields[n]);
      assert fields[..n] + [fields[n]] == fields;
    }
  }

  lemma {:induction false} HexValueMore(s: string, b: Byte)
    ensures HexValue(s + ByteText(b)) == 256 * HexValue(s) + b
  {
    var hi, lo := HexDigit(b / 16), HexDigit(b % 16);
    DigitRoundTrip(b / 16);
    DigitRoundTrip(b % 16);
    var t := s + ByteText(b);
    assert t[..|t| - 1] == s + [hi] && t[|t| - 1] == lo;
    assert (s + [hi])[..|s|] == s;
  }

  lemma {:induction false} FourTexts(a: Byte, b: Byte, c: Byte, d: Byte)
    ensures HexValue(ByteText(d) + ByteText(c) + ByteText(b) + ByteText(a)) == 256 * (256 * (256 * d + c) + b) + a
  {
    assert "" + ByteText(d) == ByteText(d);
    HexValueMore("", d);
    HexValueMore(ByteText(d), c);
    HexValueMore(ByteText(d) + ByteText(c), b);
    HexValueMore(ByteText(d) + ByteText(c) + ByteText(b), a);
  }

  lemma {:induction false} FourBytes(v: nat, a: Byte, b: Byte, c: Byte, d: Byte)
    requires v == 256 * (256 * (256 * d + c) + b) + a
    ensures WordBytes(v) == [a, b, c, d]
  {
    assert v / 0x100 == 256 * (256 * d + c) + b;
    assert v / 0x1_0000 == 256 * d + c;
    assert v / 0x100_0000 == d;
  }

  lemma {:induction false} WordRoundTrip(data: seq<Byte>, w: nat)
    requires 4 * w + 4 <= |data|
    ensures WordBytes(HexValue(WordText(data, w))) == data[4 * w..4 * w + 4]
  {
    var i := 4 * w;
    var a: Byte, b: Byte, c: Byte, d: Byte := data[i], data[i + 1], data[i + 2], data[i + 3];
    var text := WordText(data, w);
    assert text == ByteText(d) + ByteText(c) + ByteText(b) + ByteText(a);
    var v := HexValue(text);
    assert v == 256 * (256 * (256 * d + c) + b) + a by { FourTexts(a, b, c, d); }
    assert WordBytes(v) == [a, b, c, d] by { FourBytes(v, a, b, c, d); }
    assert data[i..i + 4] == [a, b, c, d] by { FourSlice(data, i); }
  }

  lemma {:induction false} FourSlice<T>(s: seq<T>, i: nat)
    requires i + 4 <= |s|
    ensures s[i..i + 4] == [s[i], s[i + 1], s[i + 2], s[i + 3]]
  {
  }

  lemma {:induction false} BytesRoundTrip(data: seq<Byte>, n: nat)
    requires 4 * n <= |data|
    ensures AllBytes(WordTexts(data)[..n]) == data[..4 * n]
  {
    if n == 0 {
    } else {
      var ws := WordTexts(data)[..n];
      BytesRoundTrip(data, n - 1);
      WordRoundTrip(data, n - 1);
      assert ws[..n - 1] == WordTexts(data)[..n - 1];
      assert data[..4 * n] == data[..4 * n - 4] + data[4 * n - 4..4 * n];
    }
  }

  lemma {:induction false} FieldsSplit(b: Block)
    ensures Split(Join(Fields(b))) == Fields(b)
  {
    var texts := WordTexts(b.data);
    forall f | f in Fields(b)
      ensures NoBlank(f)
    {
      if f in texts {
        var w :| 0 <= w < |b.data| / 4 && texts[w] == f;
      }
    }
    SplitJoin(Fields(b));
  }

  lemma {:induction false} AllBytesOf(data: seq<Byte>)
    requires |data| % 4 == 0
    ensures AllBytes(WordTexts(data)) == data
  {
    var n := |data| / 4;
    BytesRoundTrip(data, n);
    assert WordTexts(data)[..n] == WordTexts(data) && data[..4 * n] == data;
  }

  /** A request determines its address, its word count and every byte. */
  lemma {:induction false} DecodeRender(b: Block)
    requires |b.data| % 4 == 0
    ensures Decode(Render(b)) == Some(b)
  {
    var fields, s := Fields(b), Render(b);
    FieldsSplit(b);
    assert s[1..|s| - 1] == Join(fields);
    HexRoundTrip(b.address);
    HexRoundTrip(|b.data| / 4);
    AllBytesOf(b.data);
    assert fields[2..] == WordTexts(b.data);
  }

  lemma {:induction false} JoinTwo(a: string, b: string)
    ensures Join([a, b]) == a + " " + b
  {
    assert [a, b][..1] == [a];
  }

  lemma {:induction false} JoinLast(fields: seq<string>, f: string)
    requires fields != []
    ensures Join(fields + [f]) == Join(fields) + " " + f
  {
    assert (fields + [f])[..|fields|] == fields;
  }

  lemma {:induction false} JoinMore(a: string, b: string, rest: seq<string>)
    requires rest != []
    ensures Join([a, b] + rest) == a + " " + b + " " + Join(rest)
  {
    var n := |rest| - 1;
    var f := rest[n];
    assert [a, b] + rest == ([a, b] + rest[..n]) + [f];
    JoinLast([a, b] + rest[..n], f);
    if n == 0 {
      assert [a, b] + rest[..n] == [a, b];
      JoinTwo(a, b);
    } else {
      JoinMore(a, b, rest[..n]);
    }
  }

  // ---------- writing a request word by word ----------

  /** The text after the word count, once `k` of `n` words have been written. */
  ghost function Written(data: seq<Byte>, n: nat, k: nat, end: string): string
    requires k <= n && 4 * n <= |data|
  {
    if k == 0 then "" else Written(data, n, k - 1, end) + WordText(data, k - 1) + if k < n then " " else end
  }

  lemma {:induction false} WrittenJoin(data: seq<Byte>, n: nat, k: nat, end: string)
    requires 1 <= k <= n && n == |data| / 4
    ensures Written(data, n, k, end) == Join(WordTexts(data)[..k]) + if k < n then " " else end
  {
    var texts := WordTexts(data);
    assert texts[..k] == texts[..k - 1] + [texts[k - 1]];
    if k > 1 {
      WrittenJoin(data, n, k - 1, end);
      JoinLast(texts[..k - 1], texts[k - 1]);
    } else {
      assert texts[..1] == [texts[0]];
    }
  }

  lemma {:induction false} WrittenWords(data: seq<Byte>, n: nat, end: string)
    requires |data| == 4 * n && n > 0
    ensures Written(data, n, n, end) == Join(WordTexts(data)) + end
  {
    assert WordTexts(data)[..n] == WordTexts(data);
    WrittenJoin(data, n, n, end);
  }

  /** The request is its head and the text written for its words. */
  lemma {:induction false} WrittenAll(b: Block, n: nat)
    requires |b.data| == 4 * n && n > 0
    ensures Render(b) == "w" + Hex(b.address) + " " + Hex(n) + " " + Written(b.data, n, n, "\r")
  {
    WrittenWords(b.data, n, "\r");
    JoinMore(Hex(b.address), Hex(n), WordTexts(b.data));
    HeadAndWords(Hex(b.address), Hex(n), Join(WordTexts(b.data)));
  }

  lemma {:induction false} HeadAndWords(a: string, b: string, words: string)
    ensures "w" + (a + " " + b + " " + words) + "\r" == "w" + a + " " + b + " " + (words + "\r")
  {
  }

  // ---------- a request in full ----------

  lemma {:induction false} Digits(s: string, c: char, v: nat, d: nat)
    requires HexValue(s) == v && DigitValue(c) == d
    ensures HexValue(s + [c]) == 16 * v + d
  {
    HexValueDigit(s, c);
  }

  lemma {:induction false} ThreeFields(a: string, word: string)
    ensures "w" + a + " 1 " + word + "\r" == "w" + (a + " " + "1" + " " + word) + "\r"
  {
    assert " 1 " == " " + "1" + " ";
  }

  lemma {:induction false} Enclosed(text: string)
    ensures var s := "w" + text + "\r";
      |s| >= 2 && s[0] == 'w' && s[|s| - 1] == '\r' && s[1..|s| - 1] == text
  {
  }

  /** A text of three fields without blanks is a request for one word. */
  lemma {:induction false} OneWord(address: string, word: string)
    requires NoBlank(address) && NoBlank(word)
    ensures Decode("w" + address + " 1 " + word + "\r") == Some(Block(HexValue(address), WordBytes(HexValue(word))))
  {
    var fields := [address, "1", word];
    SplitJoin(fields);
    JoinTwo(address, "1");
    assert fields[..2] == [address, "1"];
    assert Join(fields) == address + " " + "1" + " " + word;
    ThreeFields(address, word);
    Enclosed(Join(fields));
    assert HexValue("1") == 1 by { Digits("", '1', 0, 1); }
    assert fields[2..] == [word] && [word][..0] == [];
    assert AllBytes([word]) == WordBytes(HexValue(word));
  }
}
