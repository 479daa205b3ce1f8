/** The bridge's demultiplexer: one byte stream from the target carries console text
    and framed RPC replies. The decoder keeps its place between reads, so how the
    stream is cut into reads must not matter. */
module RpcDemux {
  import opened Words

  datatype Option<T> = None | Some(value: T)

  type Text = seq<int>

  const RS: byte := 0x1e
  const LF: byte := 0x0a
  const CR: byte := 0x0d
  const SPACE: byte := 0x20
  const LINE_MAX := 256

  /** `rpc_done`: an announced reply whose payload is still coming, or a finished one. */
  datatype Reply = Waiting(id: int) | Good(id: int, body: seq<byte>) | Bad(id: int, body: seq<byte>)

  datatype Decoder = Decoder(
    need: int, payload: seq<byte>, line: seq<byte>, done: Option<Reply>, console: seq<byte>)

  // ---- Lines ----

  /** ASCII decoding that puts U+FFFD for a byte it does not know. */
  function DecodeAscii(line: seq<byte>): Text {
    seq(|line|, i requires 0 <= i < |line| => CharOf(line[i]))
  }

  function CharOf(b: byte): int { if b < 128 then b else 0xFFFD }

  function EncodeUtf8(t: Text): seq<byte> {
    if t == [] then []
    else (if 0 <= t[0] < 128 then [t[0]] else [0xEF, 0xBF, 0xBD]) + EncodeUtf8(t[1..])
  }

  function StripLeft(t: Text): Text {
    if t != [] && (t[0] == CR || t[0] == LF) then StripLeft(t[1..]) else t
  }

  function StripRight(t: Text): Text {
    if t != [] && (t[|t| - 1] == CR || t[|t| - 1] == LF) then StripRight(t[..|t| - 1]) else t
  }

  /** Everything before the first space, or everything. */
  function Word(t: Text): (w: Text)
    ensures w <= t && SPACE !in w
    ensures |w| < |t| ==> t[|w|] == SPACE
  {
    if t == [] || t[0] == SPACE then [] else [t[0]] + Word(t[1..])
  }

  /** `split(" ", k)`: at most k cuts. */
  function Split(t: Text, k: nat): seq<Text> {
    var w := Word(t);
    if k == 0 || |w| == |t| then [t] else [w] + Split(t[|w| + 1..], k - 1)
  }

  function Fields(line: seq<byte>): seq<Text> {
    var s := StripRight(StripLeft(DecodeAscii(line)));
    Split(if |s| > 0 && s[0] == RS then s[1..] else s, 4)
  }

  const ICS: Text := [0x49, 0x43, 0x53]
  const OK: Text := [0x4F, 0x4B]
  const END: Text := [0x45, 0x4E, 0x44]
  const ERR: Text := [0x45, 0x52, 0x52]
  const DEFAULT_ERROR: Text := [0x65, 0x72, 0x72]

  /** `int()` of the runtime: a number, or a ValueError. */
  type IntReader = Text -> Option<int>

  /** `_rpc_handle_line` */
  function HandleLine(read: IntReader, d: Decoder, line: seq<byte>): Decoder {
    var parts := Fields(line);
    if |parts| < 3 || parts[0] != ICS || read(parts[1]).None? then d
    else
      var id := read(parts[1]).value;
      if parts[2] == OK then
        var n := if |parts| > 3 && read(parts[3]).Some? then read(parts[3]).value else 0;
        d.(payload := [], need := n, done := Some(Waiting(id)))
      else if parts[2] == END then
        d.(payload := [], need := 0, done := Some(Good(id, d.payload)))
      else if parts[2] == ERR then
        var msg := if |parts| > 4 then parts[3] + [SPACE] + parts[4]
                   else if |parts| > 3 then parts[3]
                   else DEFAULT_ERROR;
        d.(payload := [], need := 0, done := Some(Bad(id, EncodeUtf8(msg))))
      else d
  }

  // ---- One byte at a time ----

  function Step(read: IntReader, d: Decoder, b: byte): Decoder {
    if d.need > 0 then
      d.(need := d.need - 1, payload := d.payload + [b])
    else if b == RS then
      d.(line := [RS])
    else if d.line != [] then
      var line := d.line + [b];
      if b == LF then HandleLine(read, d.(line := []), line)
      else if |line| > LINE_MAX then d.(line := [])
      else d.(line := line)
    else
      d.(console := d.console + [b])
  }

  function Feed(read: IntReader, d: Decoder, data: seq<byte>): Decoder
    decreases |data|
  {
    if data == [] then d else Feed(read, Step(read, d, data[0]), data[1..])
  }

  /** No byte arrives while a negative length is outstanding. */
  predicate Clean(read: IntReader, d: Decoder, data: seq<byte>)
    decreases |data|
  {
    data == [] || (d.need >= 0 && Clean(read, Step(read, d, data[0]), data[1..]))
  }

  /** Reading in two goes is reading in one. */
  lemma {:induction false} FeedConcat(read: IntReader, d: Decoder, a: seq<byte>, b: seq<byte>)
    ensures Feed(read, d, a + b) == Feed(read, Feed(read, d, a), b)
    ensures Clean(read, d, a + b) <==> Clean(read, d, a) && Clean(read, Feed(read, d, a), b)
    decreases |a|
  {
    if a == [] {
      assert a + b == b;
    } else {
      assert (a + b)[1..] == a[1..] + b;
      FeedConcat(read, Step(read, d, a[0]), a[1..], b);
    }
  }

  lemma NothingToFeed(read: IntReader, d: Decoder)
    ensures Feed(read, d, []) == d && Clean(read, d, [])
  {
  }

  /** Outstanding payload bytes are taken whole, whatever they are. */
  lemma {:induction false} FeedPayload(read: IntReader, d: Decoder, data: seq<byte>)
    requires |data| <= d.need
    ensures Feed(read, d, data) == d.(need := d.need - |data|, payload := d.payload + data)
    ensures Clean(read, d, data)
    decreases |data|
  {
    if data == [] {
      assert d.payload + data == d.payload;
    } else {
      FeedPayload(read, Step(read, d, data[0]), data[1..]);
      assert d.payload + [data[0]] + data[1..] == d.payload + data;
    }
  }

  // ---- Any way of cutting the stream ----

  function Flatten(chunks: seq<seq<byte>>): seq<byte> {
    if chunks == [] then [] else chunks[0] + Flatten(chunks[1..])
  }

  /** The reads of a stream one after the other are the stream, wherever it is cut. */
  lemma {:induction false} FlattenIs(a: seq<seq<byte>>, b: seq<seq<byte>>, x: seq<byte>)
    ensures Flatten([x]) == x && Flatten(a + b) == Flatten(a) + Flatten(b)
    decreases |a|
  {
    assert [x][1..] == [] && x + [] == x;
    if a == [] {
      assert a + b == b;
    } else {
      assert (a + b)[1..] == a[1..] + b;
      FlattenIs(a[1..], b, x);
    }
  }

  // ---- Frames ----

  function Decimal(n: nat): (t: seq<byte>)
    ensures t != [] && forall i :: 0 <= i < |t| ==> 48 <= t[i] <= 57
  {
    if n < 10 then [48 + n] else Decimal(n / 10) + [48 + n % 10]
  }

  /** The runtime reads back the decimals it is sent. */
  ghost predicate ReadsDecimals(read: IntReader) {
    forall n: nat :: read(Decimal(n)) == Some(n)
  }

  /** A reader of plain digits. */
  function ReadDigits(t: Text): Option<int>
    decreases |t|
  {
    if t == [] || !(48 <= t[|t| - 1] <= 57) then None
    else if |t| == 1 then Some(t[0] - 48)
    else
      match ReadDigits(t[..|t| - 1])
      case None => None
      case Some(v) => Some(10 * v + t[|t| - 1] - 48)
  }

  lemma {:induction false} ReadDigitsBack(n: nat)
    ensures ReadDigits(Decimal(n)) == Some(n)
  {
    if n >= 10 {
      ReadDigitsBack(n / 10);
      assert Decimal(n)[..|Decimal(n)| - 1] == Decimal(n / 10);
    }
  }

  lemma DecimalsCanBeRead()
    ensures ReadsDecimals(ReadDigits)
  {
    forall n: nat
      ensures ReadDigits(Decimal(n)) == Some(n)
    {
      ReadDigitsBack(n);
    }
  }

  function Header(id: nat, n: nat): seq<byte> {
    ICS + [SPACE] + (Decimal(id) + [SPACE] + (OK + [SPACE] + Decimal(n)))
  }

  function Trailer(id: nat): seq<byte> {
    ICS + [SPACE] + (Decimal(id) + [SPACE] + END)
  }

  /** `<RS>ICS id OK n<LF>`, the n payload bytes, `<RS>ICS id END<LF>`. */
  function Frame(id: nat, body: seq<byte>): seq<byte> {
    [RS] + Header(id, |body|) + [LF] + body + ([RS] + Trailer(id) + [LF])
  }

  predicate Printable(t: seq<byte>) { forall i :: 0 <= i < |t| ==> 32 <= t[i] < 127 }

  lemma {:induction false} WordBefore(w: Text, rest: Text)
    requires SPACE !in w
    ensures Word(w + [SPACE] + rest) == w && Word(w) == w
  {
    if w != [] {
      assert (w + [SPACE] + rest)[1..] == w[1..] + [SPACE] + rest;
      WordBefore(w[1..], rest);
    }
  }

  lemma SplitWord(w: Text, rest: Text, k: nat)
    requires SPACE !in w && k > 0
    ensures Split(w + [SPACE] + rest, k) == [w] + Split(rest, k - 1)
    ensures Split(w, k) == [w]
  {
    WordBefore(w, rest);
    assert (w + [SPACE] + rest)[|w| + 1..] == rest;
  }

  /** A printable line between separators: its fields are its words. */
  lemma FieldsOfLine(text: seq<byte>)
    requires Printable(text)
    ensures Fields([RS] + text + [LF]) == Split(text, 4)
  {
    var line := [RS] + text + [LF];
    var t := DecodeAscii(line);
    assert t == line;
    assert StripLeft(t) == t;
    assert t[..|t| - 1] == [RS] + text;
    assert StripRight(t) == StripRight([RS] + text) == [RS] + text;
    assert ([RS] + text)[1..] == text;
  }

  lemma {:induction false} FeedText(read: IntReader, d: Decoder, text: seq<byte>)
    requires d.need == 0 && d.line != [] && |d.line| + |text| <= LINE_MAX && Printable(text)
    ensures Feed(read, d, text) == d.(line := d.line + text) && Clean(read, d, text)
    decreases |text|
  {
    if text == [] {
      assert d.line + text == d.line;
    } else {
      FeedText(read, Step(read, d, text[0]), text[1..]);
      assert d.line + [text[0]] + text[1..] == d.line + text;
    }
  }

  /** A whole line is handled once, and leaves no trace on the console. */
  lemma FeedLine(read: IntReader, d: Decoder, text: seq<byte>)
    requires d.need == 0 && |text| < LINE_MAX && Printable(text)
    ensures Feed(read, d, [RS] + text + [LF]) == HandleLine(read, d.(line := []), [RS] + text + [LF])
    ensures Clean(read, d, [RS] + text + [LF])
  {
    var d1 := d.(line := [RS]);
    assert Feed(read, d, [RS]) == d1 && Clean(read, d, [RS]) by { assert [RS][1..] == []; }
    FeedConcat(read, d, [RS], text);
    FeedText(read, d1, text);
    var d2 := d1.(line := [RS] + text);
    FeedConcat(read, d, [RS] + text, [LF]);
    assert Feed(read, d2, [LF]) == Step(read, d2, LF) && Clean(read, d2, [LF]) by { assert [LF][1..] == []; }
    assert d2.(line := []) == d.(line := []);
  }

  /** A field of a frame: printable and without a space. */
  predicate IsField(t: seq<byte>) { Printable(t) && SPACE !in t }

  lemma DecimalIsField(n: nat)
    ensures IsField(Decimal(n))
  {
  }

  lemma VerbsAreFields()
    ensures IsField(ICS) && IsField(OK) && IsField(END) && IsField(ERR)
  {
  }

  lemma SplitTwo(v: seq<byte>, w: seq<byte>, k: nat)
    requires IsField(v) && IsField(w) && k >= 2
    ensures Printable(v + [SPACE] + w) && Split(v + [SPACE] + w, k) == [v, w]
  {
    SplitWord(v, w, k);
    SplitWord(w, [], k - 1);
  }

  lemma SplitCons(v: seq<byte>, rest: seq<byte>, k: nat)
    requires IsField(v) && Printable(rest) && k >= 1
    ensures Printable(v + [SPACE] + rest) && Split(v + [SPACE] + rest, k) == [v] + Split(rest, k - 1)
  {
    SplitWord(v, rest, k);
  }

  lemma HeaderFields(id: nat, n: nat)
    ensures Printable(Header(id, n))
    ensures Fields([RS] + Header(id, n) + [LF]) == [ICS, Decimal(id), OK, Decimal(n)]
  {
    hide Split, Fields, Decimal, Printable, IsField;
    VerbsAreFields();
    DecimalIsField(id);
    DecimalIsField(n);
    var rest2 := OK + [SPACE] + Decimal(n);
    var rest1 := Decimal(id) + [SPACE] + rest2;
    SplitTwo(OK, Decimal(n), 2);
    SplitCons(Decimal(id), rest2, 3);
    SplitCons(ICS, rest1, 4);
    FieldsOfLine(Header(id, n));
    assert [ICS] + ([Decimal(id)] + [OK, Decimal(n)]) == [ICS, Decimal(id), OK, Decimal(n)];
  }

  lemma TrailerFields(id: nat)
    ensures Printable(Trailer(id))
    ensures Fields([RS] + Trailer(id) + [LF]) == [ICS, Decimal(id), END]
  {
    hide Split, Fields, Decimal, Printable, IsField;
    VerbsAreFields();
    DecimalIsField(id);
    SplitTwo(Decimal(id), END, 3);
    SplitCons(ICS, Decimal(id) + [SPACE] + END, 4);
    FieldsOfLine(Trailer(id));
    assert [ICS] + [Decimal(id), END] == [ICS, Decimal(id), END];
  }

  // ---- A frame decodes to its payload ----

  lemma FeedHeader(read: IntReader, d: Decoder, id: nat, n: nat)
    requires ReadsDecimals(read) && d.need == 0 && |Header(id, n)| < LINE_MAX
    ensures Feed(read, d, [RS] + Header(id, n) + [LF])
         == d.(line := [], payload := [], need := n, done := Some(Waiting(id)))
    ensures Clean(read, d, [RS] + Header(id, n) + [LF])
  {
    HeaderFields(id, n);
    hide Fields, Header, Decimal;
    FeedLine(read, d, Header(id, n));
    assert read(Decimal(id)) == Some(id) && read(Decimal(n)) == Some(n);
  }

  lemma FeedTrailer(read: IntReader, d: Decoder, id: nat)
    requires ReadsDecimals(read) && d.need == 0 && |Trailer(id)| < LINE_MAX
    ensures Feed(read, d, [RS] + Trailer(id) + [LF])
         == d.(line := [], payload := [], done := Some(Good(id, d.payload)))
    ensures Clean(read, d, [RS] + Trailer(id) + [LF])
  {
    TrailerFields(id);
    hide Fields, Trailer, Decimal;
    FeedLine(read, d, Trailer(id));
    assert read(Decimal(id)) == Some(id);
  }

  lemma TrailerIsShorter(id: nat, n: nat)
    ensures |Trailer(id)| <= |Header(id, n)|
  {
  }

  /** From any state with no payload outstanding, even in the middle of a line, a frame
      decodes to its id and exactly its payload bytes, whatever they are, and nothing
      of it reaches the console. */
  lemma FrameDecodes(read: IntReader, d: Decoder, id: nat, body: seq<byte>)
    requires ReadsDecimals(read) && d.need == 0 && |Header(id, |body|)| < LINE_MAX
    ensures Feed(read, d, Frame(id, body))
         == d.(line := [], payload := [], done := Some(Good(id, body)))
    ensures Clean(read, d, Frame(id, body))
  {
    hide Header, Trailer, Feed, Clean;
    var head, tail := [RS] + Header(id, |body|) + [LF], [RS] + Trailer(id) + [LF];
    TrailerIsShorter(id, |body|);
    FeedHeader(read, d, id, |body|);
    var d1 := d.(line := [], payload := [], need := |body|, done := Some(Waiting(id)));
    FeedPayload(read, d1, body);
    var d2 := d1.(need := 0, payload := body);
    assert [] + body == body;
    FeedTrailer(read, d2, id);
    FeedConcat(read, d, head, body);
    FeedConcat(read, d, head + body, tail);
  }

  // ---- Errors ----

  /** The bytes of a message as the program passes it on: the replacement character, in UTF-8,
      stands for every byte outside ASCII. */
  function Shown(t: seq<byte>): seq<byte> {
    if t == [] then [] else (if t[0] < 128 then [t[0]] else [0xEF, 0xBF, 0xBD]) + Shown(t[1..])
  }

  lemma {:induction false} ShownIs(t: seq<byte>)
    ensures EncodeUtf8(DecodeAscii(t)) == Shown(t)
    ensures (forall i :: 0 <= i < |t| ==> t[i] < 128) ==> DecodeAscii(t) == t && Shown(t) == t
    ensures forall i :: 0 <= i < |t| && t[i] >= 128 ==> DecodeAscii(t)[i] == 0xFFFD
  {
    if t != [] {
      assert DecodeAscii(t)[1..] == DecodeAscii(t[1..]);
      ShownIs(t[1..]);
    }
  }

  /** `ICS id ERR`, and the message if there is one. */
  function ErrorText(id: nat, message: Option<seq<byte>>): seq<byte> {
    var verb := if message.Some? then ERR + [SPACE] + message.value else ERR;
    ICS + [SPACE] + (Decimal(id) + [SPACE] + verb)
  }

  function ErrorLine(id: nat, message: Option<seq<byte>>): seq<byte> {
    [RS] + ErrorText(id, message) + [LF]
  }

  /** The words of a message put together again are the message. */
  lemma MessageWords(message: seq<byte>)
    ensures var parts := Split(message, 1);
            if |parts| > 1 then |parts| == 2 && parts[0] + [SPACE] + parts[1] == message else parts == [message]
  {
    var w := Word(message);
    if |w| < |message| {
      assert message == w + [SPACE] + message[|w| + 1..];
    }
  }

  lemma ErrorFields(id: nat, message: Option<seq<byte>>)
    requires message.Some? ==> Printable(message.value)
    ensures Printable(ErrorText(id, message))
    ensures Fields(ErrorLine(id, message))
         == [ICS, Decimal(id), ERR] + (if message.Some? then Split(message.value, 1) else [])
  {
    hide Split, Fields, Decimal, Printable, IsField;
    VerbsAreFields();
    DecimalIsField(id);
    FieldsArePrintable(ERR);
    var verb := if message.Some? then ERR + [SPACE] + message.value else ERR;
    if message.Some? {
      SplitCons(ERR, message.value, 2);
      SplitCons(Decimal(id), verb, 3);
      SplitCons(ICS, Decimal(id) + [SPACE] + verb, 4);
      var last := Split(message.value, 1);
      assert [ICS] + ([Decimal(id)] + ([ERR] + last)) == [ICS, Decimal(id), ERR] + last;
    } else {
      SplitTwo(Decimal(id), ERR, 3);
      SplitCons(ICS, Decimal(id) + [SPACE] + ERR, 4);
      assert [ICS] + [Decimal(id), ERR] == [ICS, Decimal(id), ERR] + [];
    }
    FieldsOfLine(ErrorText(id, message));
  }

  lemma FieldsArePrintable(t: seq<byte>)
    requires IsField(t)
    ensures Printable(t)
  {
  }

  /** From any state with no payload outstanding, an error line gives a failed reply with its id
      and its message, word for word, or "err" when there is none; whatever payload had been
      collected is dropped, and nothing of the line reaches the console. */
  lemma ErrorDecodes(read: IntReader, d: Decoder, id: nat, message: Option<seq<byte>>)
    requires ReadsDecimals(read) && d.need == 0 && |ErrorText(id, message)| < LINE_MAX
    requires message.Some? ==> Printable(message.value)
    ensures Feed(read, d, ErrorLine(id, message))
         == d.(line := [], payload := [],
               done := Some(Bad(id, if message.Some? then message.value else [0x65, 0x72, 0x72])))
    ensures Clean(read, d, ErrorLine(id, message))
  {
    hide Fields, ErrorText, Decimal, Split, Feed, Clean, HandleLine, Printable;
    ErrorFields(id, message);
    FeedLine(read, d, ErrorText(id, message));
    assert read(Decimal(id)) == Some(id);
    ErrorHandled(read, d.(line := []), id, message);
  }

  lemma ErrorHandled(read: IntReader, d: Decoder, id: nat, message: Option<seq<byte>>)
    requires read(Decimal(id)) == Some(id) && (message.Some? ==> Printable(message.value))
    ensures HandleLine(read, d, ErrorLine(id, message))
         == d.(payload := [], need := 0,
               done := Some(Bad(id, if message.Some? then message.value else [0x65, 0x72, 0x72])))
  {
    hide Fields, ErrorLine, Decimal, Split, DecodeAscii, EncodeUtf8;
    ErrorFields(id, message);
    assert ERR != OK && ERR != END;
    ShownIs(DEFAULT_ERROR);
    if message.Some? {
      MessageWords(message.value);
      ShownIs(message.value);
    }
  }

  /** The lines of a reply, byte for byte. */
  lemma WireFormat(id: nat, body: seq<byte>)
    ensures Header(id, |body|) == [73, 67, 83, 32] + Decimal(id) + [32, 79, 75, 32] + Decimal(|body|)
    ensures Trailer(id) == [73, 67, 83, 32] + Decimal(id) + [32, 69, 78, 68]
    ensures Frame(id, body) == [0x1e] + Header(id, |body|) + [10] + body + [0x1e] + Trailer(id) + [10]
  {
    hide Decimal, Header, Trailer;
    HeaderIs(id, |body|);
    HeaderBytes(Decimal(id), Decimal(|body|));
    TrailerIs(id);
    TrailerBytes(Decimal(id));
  }

  lemma HeaderIs(id: nat, n: nat)
    ensures Header(id, n) == ICS + [SPACE] + (Decimal(id) + [SPACE] + (OK + [SPACE] + Decimal(n)))
  {
    hide Decimal;
  }

  lemma TrailerIs(id: nat)
    ensures Trailer(id) == ICS + [SPACE] + (Decimal(id) + [SPACE] + END)
  {
    hide Decimal;
  }

  lemma HeaderBytes(a: seq<byte>, b: seq<byte>)
    ensures ICS + [SPACE] + (a + [SPACE] + (OK + [SPACE] + b)) == [73, 67, 83, 32] + a + [32, 79, 75, 32] + b
  {
    assert ICS + [SPACE] == [73, 67, 83, 32];
    assert [SPACE] + OK + [SPACE] == [32, 79, 75, 32];
  }

  lemma TrailerBytes(a: seq<byte>)
    ensures ICS + [SPACE] + (a + [SPACE] + END) == [73, 67, 83, 32] + a + [32, 69, 78, 68]
  {
    assert ICS + [SPACE] == [73, 67, 83, 32];
    assert [SPACE] + END == [32, 69, 78, 68];
  }

  /** And an error line. */
  lemma ErrorFormat(id: nat, message: seq<byte>)
    ensures ErrorText(id, None) == [73, 67, 83, 32] + Decimal(id) + [32, 69, 82, 82]
    ensures ErrorText(id, Some(message)) == [73, 67, 83, 32] + Decimal(id) + [32, 69, 82, 82, 32] + message
    ensures forall m :: ErrorLine(id, m) == [0x1e] + ErrorText(id, m) + [10]
  {
    hide Decimal;
    assert ICS + [SPACE] == [73, 67, 83, 32];
    assert [SPACE] + ERR == [32, 69, 82, 82];
    assert [SPACE] + (ERR + [SPACE]) == [32, 69, 82, 82, 32];
    ErrorBytes(Decimal(id), message);
  }

  lemma ErrorBytes(a: seq<byte>, m: seq<byte>)
    ensures ICS + [SPACE] + (a + [SPACE] + ERR) == (ICS + [SPACE]) + a + ([SPACE] + ERR)
    ensures ICS + [SPACE] + (a + [SPACE] + (ERR + [SPACE] + m)) == (ICS + [SPACE]) + a + ([SPACE] + (ERR + [SPACE])) + m
  {
  }

  /** A carriage return before the line feed makes no difference. */
  lemma CarriageReturnIgnored(read: IntReader, d: Decoder, text: seq<byte>)
    requires d.need == 0 && |text| < LINE_MAX - 1 && Printable(text)
    ensures Feed(read, d, [RS] + text + [0x0d, 0x0a]) == Feed(read, d, [RS] + text + [0x0a])
  {
    hide HandleLine, Fields, Feed;
    LineKept(read, d, text);
    var d1 := d.(line := [RS] + text);
    var d2 := d1.(line := [RS] + text + [0x0d]);
    FeedConcat(read, d, [RS] + text, [0x0d, 0x0a]);
    FeedTwo(read, d1, 0x0d, 0x0a);
    assert Step(read, d1, 0x0d) == d2;
    FeedLine(read, d, text);
    ReturnStripped(text);
    assert [RS] + text + [0x0d] + [0x0a] == [RS] + text + [0x0d, 0x0a];
    SameFields(read, d.(line := []), [RS] + text + [0x0d, 0x0a], [RS] + text + [0x0a]);
  }

  lemma FeedTwo(read: IntReader, d: Decoder, a: byte, b: byte)
    ensures Feed(read, d, [a, b]) == Step(read, Step(read, d, a), b)
  {
    hide Step;
    var d1 := Step(read, d, a);
    assert [a, b][1..] == [b] && [b][1..] == [];
    assert Feed(read, d1, [b]) == Feed(read, Step(read, d1, b), []);
  }

  lemma SameFields(read: IntReader, d: Decoder, a: seq<byte>, b: seq<byte>)
    requires Fields(a) == Fields(b)
    ensures HandleLine(read, d, a) == HandleLine(read, d, b)
  {
    hide Fields;
  }

  /** Nor do line breaks before a line. */
  lemma BreaksStripped(line: seq<byte>)
    ensures Fields([0x0d] + line) == Fields(line) && Fields([0x0a] + line) == Fields(line)
  {
    var t := DecodeAscii(line);
    assert DecodeAscii([0x0d] + line) == [0x0d] + t && DecodeAscii([0x0a] + line) == [0x0a] + t;
    assert ([0x0d] + t)[1..] == t && ([0x0a] + t)[1..] == t;
  }

  lemma ReturnStripped(text: seq<byte>)
    requires Printable(text)
    ensures Fields([RS] + text + [0x0d, 0x0a]) == Fields([RS] + text + [0x0a])
  {
    var line := [RS] + text + [0x0d, 0x0a];
    var t := DecodeAscii(line);
    assert t == line;
    assert StripLeft(t) == t;
    assert t[..|t| - 1] == [RS] + text + [0x0d];
    assert ([RS] + text + [0x0d])[..|text| + 1] == [RS] + text;
    assert StripRight([RS] + text) == [RS] + text;
    assert StripRight([RS] + text + [0x0d]) == [RS] + text;
    assert ([RS] + text)[1..] == text;
    FieldsOfLine(text);
  }

  // ---- Lines that say nothing ----

  /** A line is no reply unless it has `ICS`, a number and a verb: it changes nothing. */
  lemma StrayLineIgnored(read: IntReader, d: Decoder, w: seq<byte>, number: seq<byte>, verb: seq<byte>)
    requires d.need == 0 && IsField(w) && IsField(number) && IsField(verb)
    requires |w| + |number| + |verb| + 2 < LINE_MAX
    requires w != ICS || read(number).None? || verb !in [OK, END, ERR]
    ensures Feed(read, d, [RS] + (w + [SPACE] + (number + [SPACE] + verb)) + [LF]) == d.(line := [])
    ensures Feed(read, d, [RS] + (w + [SPACE] + number) + [LF]) == d.(line := [])
    ensures Feed(read, d, [RS] + w + [LF]) == d.(line := [])
  {
    hide Fields, Split, Feed, Printable;
    FieldsArePrintable(w);
    FieldsArePrintable(number);
    SplitTwo(w, number, 4);
    SplitTwo(number, verb, 3);
    SplitCons(w, number + [SPACE] + verb, 4);
    SplitWord(w, [], 4);
    FieldsOfLine(w);
    FieldsOfLine(w + [SPACE] + number);
    FieldsOfLine(w + [SPACE] + (number + [SPACE] + verb));
    FeedLine(read, d, w);
    FeedLine(read, d, w + [SPACE] + number);
    FeedLine(read, d, w + [SPACE] + (number + [SPACE] + verb));
  }

  /** An announcement without a length, or with one that is no number, announces nothing. */
  lemma NoLengthIsZero(read: IntReader, d: Decoder, id: nat, length: Option<seq<byte>>)
    requires ReadsDecimals(read) && d.need == 0
    requires length.Some? ==> IsField(length.value) && read(length.value).None?
    requires |Announcement(id, length)| < LINE_MAX
    ensures Feed(read, d, [RS] + Announcement(id, length) + [LF])
         == d.(line := [], payload := [], done := Some(Waiting(id)))
  {
    hide Fields, Feed, Decimal, Announcement, IsField, Printable;
    AnnouncementFields(id, length);
    FeedLine(read, d, Announcement(id, length));
    assert read(Decimal(id)) == Some(id);
  }

  function Announcement(id: nat, length: Option<seq<byte>>): seq<byte> {
    ICS + [SPACE] + (Decimal(id) + [SPACE] + if length.Some? then OK + [SPACE] + length.value else OK)
  }

  lemma AnnouncementFields(id: nat, length: Option<seq<byte>>)
    requires length.Some? ==> IsField(length.value)
    ensures Printable(Announcement(id, length))
    ensures Fields([RS] + Announcement(id, length) + [LF])
         == [ICS, Decimal(id), OK] + (if length.Some? then [length.value] else [])
  {
    hide Split, Fields, Decimal, Printable, IsField;
    VerbsAreFields();
    DecimalIsField(id);
    if length.Some? {
      var rest := OK + [SPACE] + length.value;
      SplitTwo(OK, length.value, 2);
      SplitCons(Decimal(id), rest, 3);
      SplitCons(ICS, Decimal(id) + [SPACE] + rest, 4);
      assert [ICS] + ([Decimal(id)] + [OK, length.value]) == [ICS, Decimal(id), OK] + [length.value];
    } else {
      SplitTwo(Decimal(id), OK, 3);
      SplitCons(ICS, Decimal(id) + [SPACE] + OK, 4);
      assert [ICS] + [Decimal(id), OK] == [ICS, Decimal(id), OK] + [];
    }
    FieldsOfLine(Announcement(id, length));
  }

  // ---- The console ----

  /** Between lines, everything but a record separator goes to the console, byte for byte. */
  lemma {:induction false} ConsoleGetsText(read: IntReader, d: Decoder, text: seq<byte>)
    requires d.need == 0 && d.line == [] && 0x1e !in text
    ensures Feed(read, d, text) == d.(console := d.console + text) && Clean(read, d, text)
    decreases |text|
  {
    if text == [] {
      assert d.console + text == d.console;
    } else {
      ConsoleGetsText(read, Step(read, d, text[0]), text[1..]);
      assert d.console + [text[0]] + text[1..] == d.console + text;
    }
  }

  /** A line is given up at its 257th byte, itself dropped with the rest. */
  lemma LongLineDropped(read: IntReader, d: Decoder, text: seq<byte>)
    requires d.need == 0 && Printable(text) && |text| == 256
    ensures Feed(read, d, [RS] + text) == d.(line := [])
    ensures forall k :: 0 <= k < 256 ==> Feed(read, d, [RS] + text[..k]) == d.(line := [RS] + text[..k])
  {
    hide HandleLine, Feed;
    forall k | 0 <= k < 256
      ensures Feed(read, d, [RS] + text[..k]) == d.(line := [RS] + text[..k])
    {
      LineKept(read, d, text[..k]);
    }
    var kept, last := text[..255], text[255];
    LineKept(read, d, kept);
    assert [RS] + text == [RS] + kept + [last];
    FeedConcat(read, d, [RS] + kept, [last]);
    var d1 := d.(line := [RS] + kept);
    FeedOne(read, d1, last);
  }

  lemma FeedOne(read: IntReader, d: Decoder, b: byte)
    ensures Feed(read, d, [b]) == Step(read, d, b)
  {
    hide Step;
    assert [b][1..] == [];
  }

  lemma LineKept(read: IntReader, d: Decoder, text: seq<byte>)
    requires d.need == 0 && Printable(text) && |text| < 256
    ensures Feed(read, d, [RS] + text) == d.(line := [RS] + text)
  {
    FeedConcat(read, d, [RS], text);
    assert Feed(read, d, [RS]) == d.(line := [RS]) by { assert [RS][1..] == []; }
    FeedText(read, d.(line := [RS]), text);
  }

  /** What a target sends: console text between whole replies. */
  datatype Item =
    | Output(text: seq<byte>)
    | Success(id: nat, body: seq<byte>)
    | Failure(id: nat, message: seq<byte>)

  predicate Sendable(it: Item) {
    match it
    case Output(text) => 0x1e !in text
    case Success(id, body) => |Header(id, |body|)| < LINE_MAX
    case Failure(id, message) => Printable(message) && |ErrorText(id, Some(message))| < LINE_MAX
  }

  function Sent(it: Item): seq<byte> {
    match it
    case Output(text) => text
    case Success(id, body) => Frame(id, body)
    case Failure(id, message) => ErrorLine(id, Some(message))
  }

  function SentAll(items: seq<Item>): seq<byte> {
    if items == [] then [] else Sent(items[0]) + SentAll(items[1..])
  }

  /** The text on the console and the last reply of a stream of items. */
  function Outputs(items: seq<Item>): seq<byte> {
    if items == [] then []
    else (if items[0].Output? then items[0].text else []) + Outputs(items[1..])
  }

  function LastReply(items: seq<Item>, done: Option<Reply>): Option<Reply>
    decreases |items|
  {
    if items == [] then done
    else
      var it := items[0];
      LastReply(items[1..], match it
                            case Output(_) => done
                            case Success(id, body) => Some(Good(id, body))
                            case Failure(id, message) => Some(Bad(id, message)))
  }

  /** The stream comes apart again: the console gets all the text and only the text, in order, and
      the reply left is the last one sent, with its own payload or message. */
  lemma {:induction false} StreamSeparates(read: IntReader, d: Decoder, items: seq<Item>)
    requires ReadsDecimals(read) && d.need == 0 && d.line == []
    requires forall i :: 0 <= i < |items| ==> Sendable(items[i])
    ensures var d' := Feed(read, d, SentAll(items));
            && d'.console == d.console + Outputs(items) && d'.done == LastReply(items, d.done)
            && d'.need == 0 && d'.line == []
    ensures Clean(read, d, SentAll(items))
    decreases |items|
  {
    hide Feed, Clean, ReadsDecimals, Sendable, Sent, Outputs, LastReply;
    if items == [] {
      NothingToFeed(read, d);
      NoItems(d.done);
    } else {
      var it, rest := items[0], items[1..];
      ItemDecodes(read, d, it);
      FirstItem(items, d.done);
      var d1 := Feed(read, d, Sent(it));
      FeedConcat(read, d, Sent(it), SentAll(rest));
      StreamSeparates(read, d1, rest);
      assert d.console + Outputs([it]) + Outputs(rest) == d.console + (Outputs([it]) + Outputs(rest));
    }
  }

  lemma NoItems(done: Option<Reply>)
    ensures Outputs([]) == [] && LastReply([], done) == done
  {
  }

  lemma FirstItem(items: seq<Item>, done: Option<Reply>)
    requires items != []
    ensures Outputs(items) == Outputs([items[0]]) + Outputs(items[1..])
    ensures LastReply(items, done) == LastReply(items[1..], LastReply([items[0]], done))
  {
    assert [items[0]][1..] == [];
  }

  lemma ItemDecodes(read: IntReader, d: Decoder, it: Item)
    requires ReadsDecimals(read) && d.need == 0 && d.line == [] && Sendable(it)
    ensures var d' := Feed(read, d, Sent(it));
            && d'.console == d.console + Outputs([it]) && d'.done == LastReply([it], d.done)
            && d'.need == 0 && d'.line == []
    ensures Clean(read, d, Sent(it))
  {
    hide Feed, Clean, Frame, ErrorLine, ErrorText, Header, ReadsDecimals, Printable;
    assert [it][1..] == [];
    match it
    case Output(text) =>
      ConsoleGetsText(read, d, text);
      assert Outputs([it]) == text + [];
    case Success(id, body) =>
      FrameDecodes(read, d, id, body);
    case Failure(id, message) =>
      ErrorDecodes(read, d, id, Some(message));
  }

  // ---- Waiting for a reply ----

  predicate Answers(done: Option<Reply>, id: int) {
    done.Some? && done.value.id == id && !done.value.Waiting?
  }

  /** `rpc_wait` over the reads it makes before it times out. */
  function Wait(read: IntReader, d: Decoder, id: int, polls: seq<seq<byte>>): (Option<Reply>, Decoder)
    decreases |polls|
  {
    if polls == [] then (None, d)
    else
      var d1 := Feed(read, d, polls[0]);
      if Answers(d1.done, id) then (d1.done, d1.(done := None))
      else Wait(read, d1, id, polls[1..])
  }

  /** A reply is only ever a finished one with the caller's own id. */
  lemma {:induction false} WaitIsForOwnReply(read: IntReader, d: Decoder, id: int, polls: seq<seq<byte>>)
    ensures var r := Wait(read, d, id, polls).0;
            r.Some? ==> r.value.id == id && !r.value.Waiting?
    decreases |polls|
  {
    if polls != [] { WaitIsForOwnReply(read, Feed(read, d, polls[0]), id, polls[1..]); }
  }

  /** Until its line feed arrives, a line changes no reply. */
  lemma FeedPartialLine(read: IntReader, d: Decoder, text: seq<byte>, k: nat)
    requires d.need == 0 && |text| < LINE_MAX && Printable(text) && k <= |text| + 1
    ensures Feed(read, d, ([RS] + text + [LF])[..k]).done == d.done
  {
    if k > 0 {
      assert ([RS] + text + [LF])[..k] == [RS] + text[..k - 1];
      FeedConcat(read, d, [RS], text[..k - 1]);
      assert Feed(read, d, [RS]) == d.(line := [RS]) by { assert [RS][1..] == []; }
      FeedText(read, d.(line := [RS]), text[..k - 1]);
    }
  }

  /** Until a frame is complete, the reply is the old one or still waiting. */
  lemma FramePrefix(read: IntReader, d: Decoder, id: nat, body: seq<byte>, k: nat)
    requires ReadsDecimals(read) && d.need == 0 && |Header(id, |body|)| < LINE_MAX
    requires k < |Frame(id, body)|
    ensures var done := Feed(read, d, Frame(id, body)[..k]).done;
            done == d.done || done == Some(Waiting(id))
  {
    hide Header, Trailer, Feed, Fields, Printable;
    var head, tail := [RS] + Header(id, |body|) + [LF], [RS] + Trailer(id) + [LF];
    var frame := Frame(id, body);
    HeaderFields(id, |body|);
    TrailerFields(id);
    TrailerIsShorter(id, |body|);
    if k < |head| {
      assert frame[..k] == head[..k];
      FeedPartialLine(read, d, Header(id, |body|), k);
    } else {
      FeedHeader(read, d, id, |body|);
      var d1 := d.(line := [], payload := [], need := |body|, done := Some(Waiting(id)));
      var j := k - |head|;
      if j <= |body| {
        assert frame[..k] == head + body[..j];
        FeedConcat(read, d, head, body[..j]);
        FeedPayload(read, d1, body[..j]);
      } else {
        assert frame[..k] == head + body + tail[..j - |body|];
        FeedConcat(read, d, head, body);
        FeedPayload(read, d1, body);
        FeedConcat(read, d, head + body, tail[..j - |body|]);
        var d2 := d1.(need := 0, payload := [] + body);
        FeedPartialLine(read, d2, Trailer(id), j - |body|);
      }
    }
  }

  lemma {:induction false} WaitFrom(read: IntReader, d: Decoder, id: nat, body: seq<byte>, k: nat, polls: seq<seq<byte>>)
    requires ReadsDecimals(read) && d.need == 0 && |Header(id, |body|)| < LINE_MAX && !Answers(d.done, id)
    requires k < |Frame(id, body)| && Flatten(polls) == Frame(id, body)[k..]
    ensures Wait(read, Feed(read, d, Frame(id, body)[..k]), id, polls).0 == Some(Good(id, body))
    ensures Wait(read, Feed(read, d, Frame(id, body)[..k]), id, polls).1.done == None
    decreases |polls|
  {
    hide Header, Frame, Feed, ReadsDecimals;
    var frame := Frame(id, body);
    var k' := k + |polls[0]|;
    var before := Feed(read, d, frame[..k]);
    assert frame[k..][..|polls[0]|] == polls[0];
    assert frame[..k] + polls[0] == frame[..k'];
    FeedConcat(read, d, frame[..k], polls[0]);
    if k' < |frame| {
      FramePrefix(read, d, id, body, k');
      assert Flatten(polls[1..]) == frame[k'..] by {
        assert Flatten(polls) == polls[0] + Flatten(polls[1..]);
        assert frame[k..] == polls[0] + frame[k'..];
      }
      WaitFrom(read, d, id, body, k', polls[1..]);
    } else {
      assert frame[..k'] == frame;
      FrameDecodes(read, d, id, body);
    }
  }

  /** However a reply frame is cut into reads, `rpc_wait` returns its payload. */
  lemma WaitGetsReply(read: IntReader, d: Decoder, id: nat, body: seq<byte>, polls: seq<seq<byte>>)
    requires ReadsDecimals(read) && d.need == 0 && |Header(id, |body|)| < LINE_MAX && !Answers(d.done, id)
    requires Flatten(polls) == Frame(id, body)
    ensures Wait(read, d, id, polls).0 == Some(Good(id, body)) && Wait(read, d, id, polls).1.done == None
  {
    assert Frame(id, body)[0..] == Frame(id, body) && Frame(id, body)[..0] == [];
    WaitFrom(read, d, id, body, 0, polls);
  }

  lemma {:induction false} WaitForError(read: IntReader, d: Decoder, id: nat, message: Option<seq<byte>>, k: nat,
                                        polls: seq<seq<byte>>)
    requires ReadsDecimals(read) && d.need == 0 && |ErrorText(id, message)| < LINE_MAX && !Answers(d.done, id)
    requires message.Some? ==> Printable(message.value)
    requires k < |ErrorLine(id, message)| && Flatten(polls) == ErrorLine(id, message)[k..]
    ensures Wait(read, Feed(read, d, ErrorLine(id, message)[..k]), id, polls).0
         == Some(Bad(id, if message.Some? then message.value else [0x65, 0x72, 0x72]))
    ensures Wait(read, Feed(read, d, ErrorLine(id, message)[..k]), id, polls).1.done == None
    decreases |polls|
  {
    hide ErrorText, Feed, ReadsDecimals, Printable, Fields;
    var line := ErrorLine(id, message);
    var k' := k + |polls[0]|;
    ErrorFields(id, message);
    assert line[k..][..|polls[0]|] == polls[0];
    assert line[..k] + polls[0] == line[..k'];
    FeedConcat(read, d, line[..k], polls[0]);
    if k' < |line| {
      FeedPartialLine(read, d, ErrorText(id, message), k');
      assert Flatten(polls[1..]) == line[k'..] by {
        assert Flatten(polls) == polls[0] + Flatten(polls[1..]);
        assert line[k..] == polls[0] + line[k'..];
      }
      WaitForError(read, d, id, message, k', polls[1..]);
    } else {
      assert line[..k'] == line;
      ErrorDecodes(read, d, id, message);
    }
  }

  /** However an error line is cut into reads, `rpc_wait` returns the failure and its message. */
  lemma WaitGetsError(read: IntReader, d: Decoder, id: nat, message: Option<seq<byte>>, polls: seq<seq<byte>>)
    requires ReadsDecimals(read) && d.need == 0 && |ErrorText(id, message)| < LINE_MAX && !Answers(d.done, id)
    requires message.Some? ==> Printable(message.value)
    requires Flatten(polls) == ErrorLine(id, message)
    ensures Wait(read, d, id, polls).0
         == Some(Bad(id, if message.Some? then message.value else [0x65, 0x72, 0x72]))
    ensures Wait(read, d, id, polls).1.done == None
  {
    assert ErrorLine(id, message)[0..] == ErrorLine(id, message) && ErrorLine(id, message)[..0] == [];
    WaitForError(read, d, id, message, 0, polls);
  }

  // ---- The loop, and what a negative length does to it ----

  /** An index or slice bound as the runtime takes it: negative counts from the end. */
  function Bound(n: nat, i: int): nat {
    if n + i < 0 then 0 else if i < 0 then n + i else if i < n then i else n
  }

  function PySlice(data: seq<byte>, i: int, j: int): seq<byte> {
    var lo, hi := Bound(|data|, i), Bound(|data|, j);
    if lo <= hi then data[lo..hi] else []
  }

  /** One turn of the loop in `ingest_usb`, whatever the sign of the length. */
  function Turn(read: IntReader, data: seq<byte>, i: int, d: Decoder): (int, Decoder)
    requires -|data| <= i < |data|
  {
    if d.need != 0 then
      var n := if d.need < |data| - i then d.need else |data| - i;
      (i + n, d.(need := d.need - n, payload := d.payload + PySlice(data, i, i + n)))
    else
      (i + 1, Step(read, d, data[if i < 0 then |data| + i else i]))
  }

  /** The loop gets ahead on every turn exactly when no negative length is outstanding. */
  lemma TurnAdvancesIff(read: IntReader, data: seq<byte>, i: nat, d: Decoder)
    requires i < |data|
    ensures Turn(read, data, i, d).0 > i <==> d.need >= 0
  {
  }

  /** And then a turn is what the bytes it takes do, one at a time. */
  lemma TurnIsFeed(read: IntReader, data: seq<byte>, i: nat, d: Decoder)
    requires i < |data| && d.need >= 0
    ensures var (j, d') := Turn(read, data, i, d);
            && i < j <= |data| && d' == Feed(read, d, data[i..j])
            && j - i == (if d.need == 0 then 1 else if d.need < |data| - i then d.need else |data| - i)
  {
    hide Step, Feed, PySlice;
    if d.need == 0 {
      TurnIsStep(read, data, i, d);
      assert data[i..i + 1] == [data[i]];
      FeedOne(read, d, data[i]);
    } else {
      var n := if d.need < |data| - i then d.need else |data| - i;
      SliceIs(data, i, i + n);
      FeedPayload(read, d, data[i..i + n]);
    }
  }

  lemma SliceIs(data: seq<byte>, i: nat, j: nat)
    requires i <= j <= |data|
    ensures PySlice(data, i, j) == data[i..j]
  {
  }

  ghost function Turns(read: IntReader, data: seq<byte>, i: int, d: Decoder, k: nat): Option<(int, Decoder)>
    decreases k
  {
    if k == 0 then Some((i, d))
    else if !(-|data| <= i < |data|) then None
    else
      var (i', d') := Turn(read, data, i, d);
      Turns(read, data, i', d', k - 1)
  }

  lemma TurnsZero(read: IntReader, data: seq<byte>, i: int, d: Decoder)
    ensures Turns(read, data, i, d, 0) == Some((i, d))
  {
  }

  lemma {:induction false} TurnsAdd(read: IntReader, data: seq<byte>, i: int, d: Decoder, j: nat, k: nat)
    requires Turns(read, data, i, d, j).Some?
    ensures var (i', d') := Turns(read, data, i, d, j).value;
            Turns(read, data, i, d, j + k) == Turns(read, data, i', d', k)
    decreases j
  {
    hide Turn;
    if j > 0 {
      var (i1, d1) := Turn(read, data, i, d);
      TurnsAdd(read, data, i1, d1, j - 1, k);
    }
  }

  /** With nothing outstanding, a turn takes one byte. */
  lemma TurnIsStep(read: IntReader, data: seq<byte>, i: nat, d: Decoder)
    requires i < |data| && d.need == 0
    ensures Turn(read, data, i, d) == (i + 1, Step(read, d, data[i]))
  {
  }

  lemma {:induction false} TurnsText(read: IntReader, data: seq<byte>, i: nat, d: Decoder, text: seq<byte>)
    requires d.need == 0 && d.line != [] && |d.line| + |text| <= LINE_MAX && Printable(text)
    requires i + |text| <= |data| && data[i..i + |text|] == text
    ensures Turns(read, data, i, d, |text|) == Some((i + |text|, d.(line := d.line + text)))
    decreases |text|
  {
    hide Turn;
    if text == [] {
      assert d.line + text == d.line;
    } else {
      assert data[i] == text[0];
      assert data[i + 1..i + |text|] == text[1..];
      TurnIsStep(read, data, i, d);
      TurnsText(read, data, i + 1, Step(read, d, text[0]), text[1..]);
      assert d.line + [text[0]] + text[1..] == d.line + text;
    }
  }

  /** A whole line takes as many turns as it has bytes. */
  lemma TurnsLine(read: IntReader, data: seq<byte>, d: Decoder, text: seq<byte>)
    requires d.need == 0 && |text| < LINE_MAX && Printable(text)
    requires [RS] + text + [LF] <= data
    ensures Turns(read, data, 0, d, |text| + 2)
         == Some((|text| + 2, HandleLine(read, d.(line := []), [RS] + text + [LF])))
  {
    hide Turn, HandleLine;
    var n := |text|;
    var d1 := d.(line := [RS]);
    var d2 := d1.(line := [RS] + text);
    TurnIsStep(read, data, 0, d);
    assert Turns(read, data, 0, d, 1) == Turns(read, data, 1, d1, 0);
    assert data[1..1 + n] == text;
    TurnsText(read, data, 1, d1, text);
    TurnsAdd(read, data, 0, d, 1, n);
    TurnsAdd(read, data, 0, d, 1 + n, 1);
    TurnIsStep(read, data, n + 1, d2);
    assert data[n + 1] == LF;
    assert d2.line + [LF] == [RS] + text + [LF] && d2.(line := []) == d.(line := []);
  }

  const MINUS_14: seq<byte> := [0x2D, 0x31, 0x34]

  /** `ICS 1 OK -14`: with its separators it is fourteen bytes long. */
  function Rewinding(): seq<byte> {
    ICS + [SPACE] + (Decimal(1) + [SPACE] + (OK + [SPACE] + MINUS_14))
  }

  lemma RewindingWords()
    ensures |Rewinding()| == 12 && IsField(MINUS_14)
  {
    assert Decimal(1) == [49];
  }

  lemma RewindingFields()
    ensures Printable(Rewinding())
    ensures Fields([RS] + Rewinding() + [LF]) == [ICS, Decimal(1), OK, MINUS_14]
  {
    hide Split, Fields, Decimal, Printable, IsField;
    VerbsAreFields();
    DecimalIsField(1);
    RewindingWords();
    var rest2 := OK + [SPACE] + MINUS_14;
    var rest1 := Decimal(1) + [SPACE] + rest2;
    SplitTwo(OK, MINUS_14, 2);
    SplitCons(Decimal(1), rest2, 3);
    SplitCons(ICS, rest1, 4);
    FieldsOfLine(Rewinding());
    assert [ICS] + ([Decimal(1)] + [OK, MINUS_14]) == [ICS, Decimal(1), OK, MINUS_14];
  }

  lemma RewindingHandled(read: IntReader, d: Decoder)
    requires read(Decimal(1)) == Some(1) && read(MINUS_14) == Some(-14)
    ensures HandleLine(read, d.(line := []), [RS] + Rewinding() + [LF])
         == d.(line := [], payload := [], need := -14, done := Some(Waiting(1)))
  {
    hide Fields, Rewinding, Decimal;
    RewindingFields();
  }

  /** The line that announces -14 bytes sends the loop back to its own start: fifteen
      turns later the loop is where it was, in the state it was in. */
  lemma RewindsOnce(read: IntReader, d: Decoder, more: seq<byte>)
    requires read(Decimal(1)) == Some(1) && read(MINUS_14) == Some(-14)
    requires d.need == 0 && more != []
    ensures Turns(read, [RS] + Rewinding() + [LF] + more, 0, d, 15)
         == Some((0, d.(line := [], payload := [], need := 0, done := Some(Waiting(1)))))
  {
    hide HandleLine, Fields, Printable, Rewinding, Turns, Decimal;
    var line := [RS] + Rewinding() + [LF];
    var data := line + more;
    RewindingFields();
    RewindingWords();
    var d1 := d.(line := [], payload := [], need := -14, done := Some(Waiting(1)));
    RewindingHandled(read, d);
    TurnBack(read, data, d1);
    TurnsLine(read, data, d, Rewinding());
    TurnsAdd(read, data, 0, d, 14, 1);
  }

  lemma TurnBack(read: IntReader, data: seq<byte>, d: Decoder)
    requires d.need == -14 && d.payload == [] && |data| > 14
    ensures Turns(read, data, 14, d, 1) == Some((0, d.(need := 0)))
  {
    assert d.payload + PySlice(data, 14, 0) == [];
    assert Turn(read, data, 14, d) == (0, d.(need := 0));
    assert Turns(read, data, 14, d, 1) == Turns(read, data, 0, d.(need := 0), 0);
  }

  /** So that read never ends: after any number of rounds the loop is at its start. */
  lemma {:induction false} RewindsForever(read: IntReader, d: Decoder, more: seq<byte>, rounds: nat)
    requires read(Decimal(1)) == Some(1) && read(MINUS_14) == Some(-14)
    requires d.need == 0 && d.line == [] && d.payload == [] && d.done == Some(Waiting(1)) && more != []
    ensures Turns(read, [RS] + Rewinding() + [LF] + more, 0, d, 15 * rounds) == Some((0, d))
    decreases rounds
  {
    hide Rewinding, Decimal, Turns;
    var data := [RS] + Rewinding() + [LF] + more;
    TurnsZero(read, data, 0, d);
    if rounds > 0 {
      RewindsForever(read, d, more, rounds - 1);
      RewindsOnce(read, d, more);
      TurnsAdd(read, data, 0, d, 15 * (rounds - 1), 15);
    }
  }

  // ---- The code ----

  class Bridge {
    const read: IntReader
    var rpcNeed: int
    var rpcPayload: seq<byte>
    var rpcLine: seq<byte>
    var rpcDone: Option<Reply>
    var console: seq<byte>

    function State(): Decoder
      reads this
    {
      Decoder(rpcNeed, rpcPayload, rpcLine, rpcDone, console)
    }

    constructor (read: IntReader)
      ensures State() == Decoder(0, [], [], None, []) && this.read == read
    {
      this.read := read;
      rpcNeed, rpcPayload, rpcLine, rpcDone, console := 0, [], [], None, [];
    }

    /** `_rpc_handle_line` */
    method HandleLineNow(line: seq<byte>)
      modifies this`rpcNeed, this`rpcPayload, this`rpcDone
      ensures State() == HandleLine(read, old(State()), line)
    {
      var parts := Fields(line);
      if |parts| < 3 || parts[0] != ICS {
        return;
      }
      var id := read(parts[1]);
      if id.None? {
        return;
      }
      if parts[2] == OK {
        var n := 0;
        if |parts| > 3 {
          n := match read(parts[3]) case Some(v) => v case None => 0;
        }
        rpcPayload, rpcNeed, rpcDone := [], n, Some(Waiting(id.value));
      } else if parts[2] == END {
        rpcDone := Some(Good(id.value, rpcPayload));
        rpcPayload, rpcNeed := [], 0;
      } else if parts[2] == ERR {
        var msg := if |parts| > 3 then parts[3] else DEFAULT_ERROR;
        if |parts| > 4 {
          msg := parts[3] + [SPACE] + parts[4];
        }
        rpcDone := Some(Bad(id.value, EncodeUtf8(msg)));
        rpcNeed, rpcPayload := 0, [];
      }
    }

    /** `ingest_usb`: payload is copied in runs, the rest byte by byte, to the same effect
        as one byte at a time. It stops short exactly when a byte arrives while a negative
        length is outstanding, where `ingest_usb` would go backwards. */
    method Ingest(data: seq<byte>) returns (ok: bool)
      modifies this
      ensures ok <==> Clean(read, old(State()), data)
      ensures ok ==> State() == Feed(read, old(State()), data)
    {
      hide HandleLine;
      var i := 0;
      while i < |data|
        invariant 0 <= i <= |data|
        invariant Feed(read, old(State()), data) == Feed(read, State(), data[i..])
        invariant Clean(read, old(State()), data) <==> Clean(read, State(), data[i..])
      {
        ghost var d := State();
        if rpcNeed < 0 {
          return false;
        } else if rpcNeed > 0 {
          var n := if rpcNeed < |data| - i then rpcNeed else |data| - i;
          FeedPayload(read, d, data[i..i + n]);
          FeedConcat(read, d, data[i..i + n], data[i + n..]);
          assert data[i..] == data[i..i + n] + data[i + n..];
          rpcPayload := rpcPayload + data[i..i + n];
          rpcNeed := rpcNeed - n;
          i := i + n;
        } else {
          TakeByte(data[i]);
          assert data[i..][1..] == data[i + 1..];
          i := i + 1;
        }
      }
      ok := true;
    }

    /** Call after call of `ingest_usb`: however the stream is cut into reads, inside a payload or
        a line, console, replies and decoder state are those of the stream as a whole, and it is
        cut short exactly when the whole stream would be. */
    method IngestAll(chunks: seq<seq<byte>>) returns (ok: bool)
      modifies this
      ensures ok <==> Clean(read, old(State()), Flatten(chunks))
      ensures ok ==> State() == Feed(read, old(State()), Flatten(chunks))
    {
      hide Feed, Clean;
      NothingToFeed(read, State());
      for k := 0 to |chunks|
        invariant Clean(read, old(State()), Flatten(chunks)) <==> Clean(read, State(), Flatten(chunks[k..]))
        invariant Feed(read, old(State()), Flatten(chunks)) == Feed(read, State(), Flatten(chunks[k..]))
      {
        assert chunks[k..][1..] == chunks[k + 1..];
        FeedConcat(read, State(), chunks[k], Flatten(chunks[k + 1..]));
        ok := Ingest(chunks[k]);
        if !ok {
          return;
        }
      }
      NothingToFeed(read, State());
      ok := true;
    }

    /** The rest of the loop body, lines 199-213. */
    method TakeByte(b: byte)
      requires rpcNeed == 0
      modifies this
      ensures State() == Step(read, old(State()), b)
    {
      hide HandleLine;
      if b == RS {
        rpcLine := [RS];
      } else if |rpcLine| > 0 {
        rpcLine := rpcLine + [b];
        if b == LF {
          var line := rpcLine;
          rpcLine := [];
          HandleLineNow(line);
        } else if |rpcLine| > LINE_MAX {
          rpcLine := [];
        }
      } else {
        console := console + [b];
      }
    }

    /** `rpc_wait`, over the reads made before it times out. */
    method RpcWait(id: int, polls: seq<seq<byte>>) returns (r: Option<Reply>)
      requires Clean(read, State(), Flatten(polls))
      modifies this
      ensures (r, State()) == Wait(read, old(State()), id, polls)
    {
      hide Feed, Clean;
      for k := 0 to |polls|
        invariant Clean(read, State(), Flatten(polls[k..]))
        invariant Wait(read, old(State()), id, polls) == Wait(read, State(), id, polls[k..])
      {
        assert polls[k..][1..] == polls[k + 1..];
        FeedConcat(read, State(), polls[k], Flatten(polls[k + 1..]));
        var _ := Ingest(polls[k]);
        if rpcDone.Some? && rpcDone.value.id == id && (rpcDone.value.Good? || rpcDone.value.Bad?) {
          r := rpcDone;
          rpcDone := None;
          return;
        }
      }
      r := None;
    }
  }
}
