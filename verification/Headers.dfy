/** `DataInputStream` and `DataOutputStream` over a channel. */
module DataStreams {
  import opened Sequences
  import opened Channels

  /** A string in the modified UTF-8 form `writeUTF` gives it. */
  type Text = seq<Byte>

  const MAX_UTF := 65535

  datatype ReadError = EndOfStream | ClassNotFound | IllegalSize

  /** What a decoder makes of the bytes on a channel: a value and the bytes behind it, or an exception. */
  datatype Parsed<+T> = Failed(error: ReadError) | Parsed(value: T, rest: seq<Byte>) {
    predicate IsFailure() { Failed? }
    function PropagateFailure<U>(): Parsed<U> requires Failed? { Failed(error) }
    function Extract(): (T, seq<Byte>) requires Parsed? { (value, rest) }
  }

  /** A read that moved `source` from `before` did what its decoder says. */
  ghost predicate Agrees<T>(before: seq<Byte>, p: Parsed<T>, source: Source, r: Parsed<T>)
    reads source
  {
    r == p && (p.Parsed? ==> source.rest == p.rest)
  }

  predicate FitsUtf(s: Text) { |s| <= MAX_UTF }

  function EncodeUtf(s: Text): seq<Byte>
    requires FitsUtf(s)
  {
    [|s| / 0x100, |s| % 0x100] + s
  }

  function EncodeBoolean(b: bool): seq<Byte> {
    [if b then 1 else 0]
  }

  function ParseInt(bytes: seq<Byte>): Parsed<Int32> {
    if |bytes| < 4 then Failed(EndOfStream)
    else Parsed(DecodeInt(bytes[0], bytes[1], bytes[2], bytes[3]), bytes[4..])
  }

  function ParseBoolean(bytes: seq<Byte>): Parsed<bool> {
    if bytes == [] then Failed(EndOfStream) else Parsed(bytes[0] != 0, bytes[1..])
  }

  function ParseUtf(bytes: seq<Byte>): Parsed<Text> {
    if |bytes| < 2 then Failed(EndOfStream)
    else
      var n := (bytes[0] as int) * 0x100 + bytes[1];
      if |bytes| < 2 + n then Failed(EndOfStream) else Parsed(bytes[2..2 + n], bytes[2 + n..])
  }

  lemma IntCodec(v: Int32, rest: seq<Byte>)
    ensures ParseInt(EncodeInt(v) + rest) == Parsed(v, rest)
  {
    IntRoundTrip(v);
    var bytes := EncodeInt(v) + rest;
    assert bytes[4..] == rest;
  }

  lemma BooleanCodec(b: bool, rest: seq<Byte>)
    ensures ParseBoolean(EncodeBoolean(b) + rest) == Parsed(b, rest)
  {
    assert (EncodeBoolean(b) + rest)[1..] == rest;
  }

  lemma UtfCodec(s: Text, rest: seq<Byte>)
    requires FitsUtf(s)
    ensures ParseUtf(EncodeUtf(s) + rest) == Parsed(s, rest)
  {
    var bytes := EncodeUtf(s) + rest;
    assert (bytes[0] as int) * 0x100 + bytes[1] == |s|;
    assert bytes[2..2 + |s|] == s;
    assert bytes[2 + |s|..] == rest;
  }

  /** A text is its length in two bytes, the high one first, and its bytes; a flag is a byte that is 0 or 1. */
  lemma UtfBytes(s: Text, b: bool)
    requires FitsUtf(s)
    ensures |EncodeUtf(s)| == |s| + 2 && (EncodeUtf(s)[0] as int) * 0x100 + EncodeUtf(s)[1] == |s| && EncodeUtf(s)[2..] == s
    ensures EncodeBoolean(b) == [if b then 1 else 0]
  {
  }

  /** Three pieces sent one after the other are their concatenation sent at once. */
  lemma Concatenated(sent: seq<Byte>, a: seq<Byte>, b: seq<Byte>, c: seq<Byte>)
    ensures sent + a + b + c == sent + (a + b + c)
    ensures sent + (a + b) == sent + a + b
  {
    Associative(sent, a, b);
    Associative(sent, a + b, c);
  }

  method ReadInt(source: Source) returns (r: Parsed<Int32>)
    modifies source
    ensures Agrees(old(source.rest), ParseInt(old(source.rest)), source, r)
  {
    if |source.rest| < 4 {
      return Failed(EndOfStream);
    }
    var v := source.ReadInt();
    return Parsed(v, source.rest);
  }

  method ReadBoolean(source: Source) returns (r: Parsed<bool>)
    modifies source
    ensures Agrees(old(source.rest), ParseBoolean(old(source.rest)), source, r)
  {
    var b := source.Read();
    return if b < 0 then Failed(EndOfStream) else Parsed(b != 0, source.rest);
  }

  method ReadUtf(source: Source) returns (r: Parsed<Text>)
    modifies source
    ensures Agrees(old(source.rest), ParseUtf(old(source.rest)), source, r)
  {
    ghost var bytes := source.rest;
    var high := source.Read();
    var low := source.Read();
    if low < 0 {
      return Failed(EndOfStream);
    }
    assert source.rest == bytes[2..];
    var n := high * 0x100 + low;
    var b := new Byte[n];
    var ok := ReadFully(source, b);
    if !ok {
      return Failed(EndOfStream);
    }
    assert bytes[2..][..n] == bytes[2..2 + n] && bytes[2..][n..] == bytes[2 + n..];
    return Parsed(b[..], source.rest);
  }

  /** `readFully`: as many reads as the network needs to fill the array, or an `EOFException`. */
  method ReadFully(source: Source, b: array<Byte>) returns (ok: bool)
    modifies source, b
    ensures ok <==> b.Length <= |old(source.rest)|
    ensures ok ==> b[..] == old(source.rest)[..b.Length] && source.rest == old(source.rest)[b.Length..]
  {
    ghost var bytes := source.rest;
    var n := 0;
    while n < b.Length
      invariant n <= b.Length && Taken(bytes, n, b[..], source.rest)
      decreases b.Length - n
    {
      ghost var was, rest := b[..], source.rest;
      var count := source.ReadInto(b, n, b.Length - n);
      if count < 0 {
        return false;
      }
      TakenMore(bytes, n, was, rest, count, b[..], source.rest);
      n := n + count;
    }
    assert b[..b.Length] == b[..];
    return true;
  }

  /** `writeUTF`: refuses a string that is too long before it writes anything. */
  method WriteUtf(out: Sink, s: Text) returns (ok: bool)
    modifies out
    ensures ok <==> FitsUtf(s)
    ensures out.sent == old(out.sent) + if ok then EncodeUtf(s) else []
  {
    if |s| > MAX_UTF {
      return false;
    }
    var b := new Byte[|s| + 2];
    b[0], b[1] := |s| / 0x100, |s| % 0x100;
    forall i | 0 <= i < |s| {
      b[2 + i] := s[i];
    }
    assert b[0..|s| + 2] == EncodeUtf(s);
    out.WriteArray(b, 0, |s| + 2);
    return true;
  }

  method WriteBoolean(out: Sink, b: bool)
    modifies out
    ensures out.sent == old(out.sent) + EncodeBoolean(b)
  {
    out.Write(if b then 1 else 0);
  }

  predicate FitUtf(texts: seq<Text>) {
    |texts| <= MAX_INT && forall i :: 0 <= i < |texts| ==> FitsUtf(texts[i])
  }

  function EncodeTexts(texts: seq<Text>): seq<Byte>
    requires FitUtf(texts)
  {
    if texts == [] then [] else EncodeUtf(texts[0]) + EncodeTexts(texts[1..])
  }

  lemma {:induction false} EncodeTextsAppend(texts: seq<Text>, s: Text)
    requires FitUtf(texts + [s])
    ensures FitUtf(texts) && FitsUtf(s)
    ensures EncodeTexts(texts + [s]) == EncodeTexts(texts) + EncodeUtf(s)
  {
    assert (texts + [s])[|texts|] == s;
    assert forall i :: 0 <= i < |texts| ==> (texts + [s])[i] == texts[i];
    if texts == [] {
      assert texts + [s] == [s];
      assert EncodeTexts([s]) == EncodeUtf(s) + EncodeTexts([]);
    } else {
      assert (texts + [s])[1..] == texts[1..] + [s];
      EncodeTextsAppend(texts[1..], s);
    }
  }

  /** `n` more strings after the ones in `acc`; a string `accepts` refuses is a missing class. */
  function ParseTexts(acc: seq<Text>, n: nat, accepts: Text -> bool, bytes: seq<Byte>): Parsed<seq<Text>>
    decreases n
  {
    if n == 0 then Parsed(acc, bytes)
    else
      var (s, rest) :- ParseUtf(bytes);
      if !accepts(s) then Failed(ClassNotFound) else ParseTexts(acc + [s], n - 1, accepts, rest)
  }

  lemma {:induction false} TextsCodec(acc: seq<Text>, texts: seq<Text>, accepts: Text -> bool, rest: seq<Byte>)
    requires FitUtf(texts) && forall i :: 0 <= i < |texts| ==> accepts(texts[i])
    ensures ParseTexts(acc, |texts|, accepts, EncodeTexts(texts) + rest) == Parsed(acc + texts, rest)
    decreases |texts|
  {
    hide EncodeUtf, ParseUtf;
    if texts == [] {
      assert acc + texts == acc && EncodeTexts(texts) + rest == rest;
    } else {
      var behind := EncodeTexts(texts[1..]) + rest;
      assert EncodeTexts(texts) + rest == EncodeUtf(texts[0]) + behind;
      UtfCodec(texts[0], behind);
      TextsCodec(acc + [texts[0]], texts[1..], accepts, rest);
      assert acc + [texts[0]] + texts[1..] == acc + texts;
    }
  }

  lemma {:induction false} TextsRefused(acc: seq<Text>, texts: seq<Text>, accepts: Text -> bool, rest: seq<Byte>)
    requires FitUtf(texts) && exists i :: 0 <= i < |texts| && !accepts(texts[i])
    ensures ParseTexts(acc, |texts|, accepts, EncodeTexts(texts) + rest) == Failed(ClassNotFound)
    decreases |texts|
  {
    hide EncodeUtf, ParseUtf;
    var behind := EncodeTexts(texts[1..]) + rest;
    assert EncodeTexts(texts) + rest == EncodeUtf(texts[0]) + behind;
    UtfCodec(texts[0], behind);
    if accepts(texts[0]) {
      var i :| 0 <= i < |texts| && !accepts(texts[i]);
      assert texts[1..][i - 1] == texts[i];
      TextsRefused(acc + [texts[0]], texts[1..], accepts, rest);
    }
  }

  /** The loop that fills a list with `n` strings. */
  method ReadTexts(source: Source, n: nat, accepts: Text -> bool) returns (r: Parsed<seq<Text>>)
    modifies source
    ensures Agrees(old(source.rest), ParseTexts([], n, accepts, old(source.rest)), source, r)
  {
    var texts := [];
    for i := 0 to n
      invariant ParseTexts(texts, n - i, accepts, source.rest) == ParseTexts([], n, accepts, old(source.rest))
    {
      var s := ReadUtf(source);
      if s.Failed? {
        return Failed(s.error);
      }
      if !accepts(s.value) {
        return Failed(ClassNotFound);
      }
      texts := texts + [s.value];
    }
    return Parsed(texts, source.rest);
  }

  /** The loop that writes a list of strings; it stops at the first one that is too long. */
  method WriteTexts(out: Sink, texts: seq<Text>) returns (ok: bool)
    requires |texts| <= MAX_INT
    modifies out
    ensures ok <==> FitUtf(texts)
    ensures ok ==> out.sent == old(out.sent) + EncodeTexts(texts)
  {
    for i := 0 to |texts|
      invariant FitUtf(texts[..i])
      invariant out.sent == old(out.sent) + EncodeTexts(texts[..i])
    {
      ok := WriteUtf(out, texts[i]);
      if !ok {
        return;
      }
      assert texts[..i + 1] == texts[..i] + [texts[i]];
      EncodeTextsAppend(texts[..i], texts[i]);
      Associative(old(out.sent), EncodeTexts(texts[..i]), EncodeUtf(texts[i]));
    }
    assert texts[..|texts|] == texts;
    return true;
  }
}

/** The tcpx request and response headers. */
module TcpxHeaders {
  import opened Options
  import opened Sequences
  import opened Channels
  import opened DataStreams

  /** A request header as a value; a `None` is a Java `null`. */
  datatype RequestHeader = RequestHeader(
    sessionId: Option<Text>,
    serviceName: Text,
    methodName: Text,
    parameterTypes: Option<seq<Text>>,
    outParametersMode: bool,
    keepConnection: bool)
  {
    predicate Fits() {
      && FitsUtf(sessionId.GetOr([])) && FitsUtf(serviceName) && FitsUtf(methodName)
      && (parameterTypes.Some? ==> FitUtf(parameterTypes.value))
    }

    /** A header as the other side sees it: a missing session id arrives as an empty one. */
    function Received(): RequestHeader {
      this.(sessionId := Some(sessionId.GetOr([])))
    }

    predicate Loads(loadable: Text -> bool) {
      parameterTypes.Some? ==> forall i :: 0 <= i < |parameterTypes.value| ==> loadable(parameterTypes.value[i])
    }
  }

  function EncodeTypes(types: Option<seq<Text>>): seq<Byte>
    requires types.Some? ==> FitUtf(types.value)
  {
    if types == None then EncodeInt(-1) else EncodeInt(|types.value|) + EncodeTexts(types.value)
  }

  function EncodeRequest(h: RequestHeader): seq<Byte>
    requires h.Fits()
  {
    EncodeNames(h) + EncodeTypes(h.parameterTypes) + EncodeFlags(h)
  }

  function EncodeNames(h: RequestHeader): seq<Byte>
    requires h.Fits()
  {
    EncodeUtf(h.sessionId.GetOr([])) + EncodeUtf(h.serviceName) + EncodeUtf(h.methodName)
  }

  function EncodeFlags(h: RequestHeader): seq<Byte> {
    EncodeBoolean(h.outParametersMode) + EncodeBoolean(h.keepConnection)
  }

  /** The parameter types; a negative count leaves the ones the header object had before. */
  function ParseTypes(before: Option<seq<Text>>, loadable: Text -> bool, bytes: seq<Byte>): Parsed<Option<seq<Text>>> {
    var (n, rest) :- ParseInt(bytes);
    if n < 0 then Parsed(before, rest)
    else
      var (types, rest) :- ParseTexts([], n, loadable, rest);
      Parsed(Some(types), rest)
  }

  function ParseNames(bytes: seq<Byte>): Parsed<(Text, Text, Text)> {
    var (sessionId, rest) :- ParseUtf(bytes);
    var (serviceName, rest) :- ParseUtf(rest);
    var (methodName, rest) :- ParseUtf(rest);
    Parsed((sessionId, serviceName, methodName), rest)
  }

  function ParseFlags(bytes: seq<Byte>): Parsed<(bool, bool)> {
    var (outParametersMode, rest) :- ParseBoolean(bytes);
    var (keepConnection, rest) :- ParseBoolean(rest);
    Parsed((outParametersMode, keepConnection), rest)
  }

  function ParseRequest(before: Option<seq<Text>>, loadable: Text -> bool, bytes: seq<Byte>): Parsed<RequestHeader> {
    var (names, rest) :- ParseNames(bytes);
    var (types, rest) :- ParseTypes(before, loadable, rest);
    var (flags, rest) :- ParseFlags(rest);
    Parsed(RequestHeader(Some(names.0), names.1, names.2, types, flags.0, flags.1), rest)
  }

  lemma NamesCodec(h: RequestHeader, rest: seq<Byte>)
    requires h.Fits()
    ensures ParseNames(EncodeNames(h) + rest) == Parsed((h.sessionId.GetOr([]), h.serviceName, h.methodName), rest)
  {
    var r2: seq<Byte> := EncodeUtf(h.methodName) + rest;
    var r1: seq<Byte> := EncodeUtf(h.serviceName) + r2;
    assert EncodeNames(h) + rest == EncodeUtf(h.sessionId.GetOr([])) + r1;
    UtfCodec(h.sessionId.GetOr([]), r1);
    UtfCodec(h.serviceName, r2);
    UtfCodec(h.methodName, rest);
  }

  lemma FlagsCodec(h: RequestHeader, rest: seq<Byte>)
    ensures ParseFlags(EncodeFlags(h) + rest) == Parsed((h.outParametersMode, h.keepConnection), rest)
  {
    hide EncodeBoolean, ParseBoolean;
    var behind: seq<Byte> := EncodeBoolean(h.keepConnection) + rest;
    assert EncodeFlags(h) + rest == EncodeBoolean(h.outParametersMode) + behind;
    BooleanCodec(h.outParametersMode, behind);
    BooleanCodec(h.keepConnection, rest);
  }

  lemma TypesCodec(types: Option<seq<Text>>, loadable: Text -> bool, rest: seq<Byte>)
    requires types.Some? ==> FitUtf(types.value) && forall i :: 0 <= i < |types.value| ==> loadable(types.value[i])
    ensures ParseTypes(None, loadable, EncodeTypes(types) + rest) == Parsed(types, rest)
  {
    if types == None {
      IntCodec(-1, rest);
    } else {
      var behind := EncodeTexts(types.value) + rest;
      assert EncodeTypes(types) + rest == EncodeInt(|types.value|) + behind;
      IntCodec(|types.value|, behind);
      TextsCodec([], types.value, loadable, rest);
      assert [] + types.value == types.value;
    }
  }

  /** A fresh header object reads what was written, and not a byte of what follows. */
  lemma RequestCodec(h: RequestHeader, loadable: Text -> bool, rest: seq<Byte>)
    requires h.Fits() && h.Loads(loadable)
    ensures ParseRequest(None, loadable, EncodeRequest(h) + rest) == Parsed(h.Received(), rest)
    ensures h.Received() == if h.sessionId.Some? then h else h.(sessionId := Some([]))
  {
    var r2: seq<Byte> := EncodeFlags(h) + rest;
    var r1: seq<Byte> := EncodeTypes(h.parameterTypes) + r2;
    assert EncodeRequest(h) + rest == EncodeNames(h) + r1;
    NamesCodec(h, r1);
    TypesCodec(h.parameterTypes, loadable, r2);
    FlagsCodec(h, rest);
  }

  /** A header that names a class not to be found is refused. */
  lemma RequestRefused(h: RequestHeader, loadable: Text -> bool, rest: seq<Byte>)
    requires h.Fits() && !h.Loads(loadable)
    ensures ParseRequest(None, loadable, EncodeRequest(h) + rest) == Failed(ClassNotFound)
  {
    hide EncodeNames, ParseNames, EncodeTexts, ParseTexts, EncodeInt, ParseInt;
    var r2: seq<Byte> := EncodeFlags(h) + rest;
    var r1: seq<Byte> := EncodeTypes(h.parameterTypes) + r2;
    assert EncodeRequest(h) + rest == EncodeNames(h) + r1;
    NamesCodec(h, r1);
    var types := h.parameterTypes.value;
    var behind := EncodeTexts(types) + r2;
    assert r1 == EncodeInt(|types|) + behind;
    IntCodec(|types|, behind);
    TextsRefused([], types, loadable, r2);
  }

  /** On the wire: session, service and method, the types behind their number, and the two flags in this order. */
  lemma RequestBytes()
    ensures EncodeRequest(RequestHeader(Some([65]), [66], [67], Some([[68], [69]]), false, true)) ==
      [0, 1, 65, 0, 1, 66, 0, 1, 67] + [0, 0, 0, 2, 0, 1, 68, 0, 1, 69] + [0, 1]
    ensures EncodeRequest(RequestHeader(None, [66], [], None, true, false)) ==
      [0, 0, 0, 1, 66, 0, 0] + [0xFF, 0xFF, 0xFF, 0xFF] + [1, 0]
  {
    TypesBytes();
    hide EncodeTypes;
    assert EncodeNames(RequestHeader(Some([65]), [66], [67], Some([[68], [69]]), false, true)) == [0, 1, 65, 0, 1, 66, 0, 1, 67];
    assert EncodeNames(RequestHeader(None, [66], [], None, true, false)) == [0, 0, 0, 1, 66, 0, 0];
  }

  lemma TypesBytes()
    ensures EncodeTypes(Some([[68], [69]])) == [0, 0, 0, 2, 0, 1, 68, 0, 1, 69]
    ensures EncodeTypes(None) == [0xFF, 0xFF, 0xFF, 0xFF]
  {
    var types: seq<Text> := [[68], [69]];
    assert EncodeInt(2) == [0, 0, 0, 2] && EncodeInt(-1) == [0xFF, 0xFF, 0xFF, 0xFF];
    assert types[1..] == [[69]] && types[1..][1..] == [];
    assert EncodeTexts(types[1..]) == EncodeUtf([69]) + EncodeTexts([]);
    assert EncodeTexts(types) == EncodeUtf([68]) + EncodeTexts(types[1..]) == [0, 1, 68, 0, 1, 69];
  }

  class TcpxRequestHeader {
    var sessionId: Option<Text>
    var serviceName: Text
    var methodName: Text
    var parameterTypes: Option<seq<Text>>
    var outParametersMode: bool
    var keepConnection: bool

    constructor ()
      ensures parameterTypes == None
    {
      sessionId, parameterTypes := None, None;
      serviceName, methodName := [], [];
      outParametersMode, keepConnection := false, false;
    }

    constructor Of(h: RequestHeader)
      ensures Value() == h
    {
      sessionId, parameterTypes := h.sessionId, h.parameterTypes;
      serviceName, methodName := h.serviceName, h.methodName;
      outParametersMode, keepConnection := h.outParametersMode, h.keepConnection;
    }

    function Value(): RequestHeader
      reads this
    {
      RequestHeader(sessionId, serviceName, methodName, parameterTypes, outParametersMode, keepConnection)
    }

    /** Follows the decoder on every input, exceptions included. */
    method Read(source: Source, loadable: Text -> bool) returns (error: Option<ReadError>)
      modifies this, source
      ensures match ParseRequest(old(parameterTypes), loadable, old(source.rest))
              case Failed(e) => error == Some(e)
              case Parsed(h, rest) => error == None && Value() == h && source.rest == rest
    {
      error := ReadNames(source);
      if error.Some? { return; }
      error := ReadTypes(source, loadable);
      if error.Some? { return; }
      error := ReadFlags(source);
    }

    method ReadNames(source: Source) returns (error: Option<ReadError>)
      modifies this`sessionId, this`serviceName, this`methodName, source
      ensures match ParseNames(old(source.rest))
              case Failed(e) => error == Some(e)
              case Parsed(names, rest) =>
                error == None && source.rest == rest
                && sessionId == Some(names.0) && serviceName == names.1 && methodName == names.2
    {
      var s := ReadUtf(source);
      if s.Failed? { return Some(s.error); }
      sessionId := Some(s.value);
      s := ReadUtf(source);
      if s.Failed? { return Some(s.error); }
      serviceName := s.value;
      s := ReadUtf(source);
      if s.Failed? { return Some(s.error); }
      methodName := s.value;
      return None;
    }

    method ReadTypes(source: Source, loadable: Text -> bool) returns (error: Option<ReadError>)
      modifies this`parameterTypes, source
      ensures match ParseTypes(old(parameterTypes), loadable, old(source.rest))
              case Failed(e) => error == Some(e)
              case Parsed(types, rest) => error == None && parameterTypes == types && source.rest == rest
    {
      var count := ReadInt(source);
      if count.Failed? { return Some(count.error); }
      if count.value >= 0 {
        var types := ReadTexts(source, count.value, loadable);
        if types.Failed? { return Some(types.error); }
        parameterTypes := Some(types.value);
      }
      return None;
    }

    method ReadFlags(source: Source) returns (error: Option<ReadError>)
      modifies this`outParametersMode, this`keepConnection, source
      ensures match ParseFlags(old(source.rest))
              case Failed(e) => error == Some(e)
              case Parsed(flags, rest) =>
                error == None && source.rest == rest && outParametersMode == flags.0 && keepConnection == flags.1
    {
      var flag := ReadBoolean(source);
      if flag.Failed? { return Some(flag.error); }
      outParametersMode := flag.value;
      flag := ReadBoolean(source);
      if flag.Failed? { return Some(flag.error); }
      keepConnection := flag.value;
      return None;
    }

    /** Writes the whole header exactly when every string fits. */
    method Write(out: Sink) returns (ok: bool)
      requires parameterTypes.Some? ==> |parameterTypes.value| <= MAX_INT
      modifies out
      ensures ok <==> Value().Fits()
      ensures ok ==> out.sent == old(out.sent) + EncodeRequest(Value())
    {
      ok := WriteNames(out);
      if !ok { return; }
      ok := WriteTypes(out);
      if !ok { return; }
      WriteBoolean(out, outParametersMode);
      WriteBoolean(out, keepConnection);
      ghost var h := Value();
      Concatenated(old(out.sent), EncodeNames(h), EncodeTypes(parameterTypes), EncodeFlags(h));
      Concatenated(old(out.sent) + EncodeNames(h) + EncodeTypes(parameterTypes),
                   EncodeBoolean(outParametersMode), EncodeBoolean(keepConnection), []);
    }

    method WriteNames(out: Sink) returns (ok: bool)
      modifies out
      ensures ok <==> FitsUtf(sessionId.GetOr([])) && FitsUtf(serviceName) && FitsUtf(methodName)
      ensures ok ==>
        out.sent == old(out.sent) + (EncodeUtf(sessionId.GetOr([])) + EncodeUtf(serviceName) + EncodeUtf(methodName))
    {
      ok := WriteUtf(out, sessionId.GetOr([]));
      if !ok { return; }
      ok := WriteUtf(out, serviceName);
      if !ok { return; }
      ok := WriteUtf(out, methodName);
      if !ok { return; }
      Concatenated(old(out.sent), EncodeUtf(sessionId.GetOr([])), EncodeUtf(serviceName), EncodeUtf(methodName));
    }

    method WriteTypes(out: Sink) returns (ok: bool)
      requires parameterTypes.Some? ==> |parameterTypes.value| <= MAX_INT
      modifies out
      ensures ok <==> (parameterTypes.Some? ==> FitUtf(parameterTypes.value))
      ensures ok ==> out.sent == old(out.sent) + EncodeTypes(parameterTypes)
    {
      if parameterTypes == None {
        out.WriteInt(-1);
        ok := true;
      } else {
        out.WriteInt(|parameterTypes.value|);
        ok := WriteTexts(out, parameterTypes.value);
      }
    }
  }

  datatype ResponseHeader = ResponseHeader(sessionId: Text, success: bool) {
    predicate Fits() { FitsUtf(sessionId) }
  }

  function EncodeResponse(h: ResponseHeader): seq<Byte>
    requires h.Fits()
  {
    EncodeUtf(h.sessionId) + EncodeBoolean(h.success)
  }

  function ParseResponse(bytes: seq<Byte>): Parsed<ResponseHeader> {
    var (sessionId, rest) :- ParseUtf(bytes);
    var (success, rest) :- ParseBoolean(rest);
    Parsed(ResponseHeader(sessionId, success), rest)
  }

  lemma ResponseCodec(h: ResponseHeader, rest: seq<Byte>)
    requires h.Fits()
    ensures ParseResponse(EncodeResponse(h) + rest) == Parsed(h, rest)
  {
    var behind: seq<Byte> := EncodeBoolean(h.success) + rest;
    assert EncodeResponse(h) + rest == EncodeUtf(h.sessionId) + behind;
    UtfCodec(h.sessionId, behind);
    BooleanCodec(h.success, rest);
  }

  lemma ResponseBytes()
    ensures EncodeResponse(ResponseHeader([65], true)) == [0, 1, 65, 1]
  {
    assert EncodeUtf([65]) == [0, 1, 65];
  }

  class TcpxResponseHeader {
    var sessionId: Text
    var success: bool

    constructor (sessionId: Text)
      ensures this.sessionId == sessionId && !success
    {
      this.sessionId := sessionId;
      success := false;
    }

    function Value(): ResponseHeader
      reads this
    {
      ResponseHeader(sessionId, success)
    }

    method Read(source: Source) returns (error: Option<ReadError>)
      modifies this, source
      ensures match ParseResponse(old(source.rest))
              case Failed(e) => error == Some(e)
              case Parsed(h, rest) => error == None && Value() == h && source.rest == rest
    {
      var s := ReadUtf(source);
      if s.Failed? { return Some(s.error); }
      sessionId := s.value;
      var flag := ReadBoolean(source);
      if flag.Failed? { return Some(flag.error); }
      success := flag.value;
      return None;
    }

    method Write(out: Sink) returns (ok: bool)
      modifies out
      ensures ok <==> Value().Fits()
      ensures out.sent == old(out.sent) + if ok then EncodeResponse(Value()) else []
    {
      ok := WriteUtf(out, sessionId);
      if ok {
        WriteBoolean(out, success);
      }
    }
  }
}

/** The header of the plain tcp protocol: an ordered map from names to lists of values. */
module DefaultHeaders {
  import opened Options
  import opened Sequences
  import opened Channels
  import opened DataStreams

  datatype Field = Field(name: Text, values: seq<Text>)

  predicate DistinctNames(fields: seq<Field>) {
    forall i, j :: 0 <= i < j < |fields| ==> fields[i].name != fields[j].name
  }

  /** `LinkedMap.put`: a known name keeps its place, a new one goes last. */
  function Put(fields: seq<Field>, name: Text, values: seq<Text>): (r: seq<Field>)
    ensures DistinctNames(fields) ==> DistinctNames(r)
    ensures forall i :: 0 <= i < |r| ==> r[i].name == name || (i < |fields| && r[i] == fields[i])
  {
    if fields == [] then [Field(name, values)]
    else if fields[0].name == name then [Field(name, values)] + fields[1..]
    else [fields[0]] + Put(fields[1..], name, values)
  }

  /** A name that is there has its values replaced, at its place; another goes last. */
  lemma {:induction false} PutMeans(fields: seq<Field>, name: Text, values: seq<Text>, i: nat)
    ensures i < |fields| && fields[i].name == name && (forall j :: 0 <= j < i ==> fields[j].name != name) ==>
      Put(fields, name, values) == fields[i := Field(name, values)]
    ensures (forall j :: 0 <= j < |fields| ==> fields[j].name != name) ==> Put(fields, name, values) == fields + [Field(name, values)]
  {
    if fields != [] && fields[0].name != name {
      PutMeans(fields[1..], name, values, if i > 0 then i - 1 else 0);
    }
  }

  lemma {:induction false} PutNew(fields: seq<Field>, f: Field)
    requires forall i :: 0 <= i < |fields| ==> fields[i].name != f.name
    ensures Put(fields, f.name, f.values) == fields + [f]
  {
    if fields != [] {
      PutNew(fields[1..], f);
    }
  }

  predicate Fit(fields: seq<Field>) {
    && |fields| <= MAX_INT
    && forall i :: 0 <= i < |fields| ==> FitsUtf(fields[i].name) && FitUtf(fields[i].values)
  }

  function EncodeField(f: Field): seq<Byte>
    requires FitsUtf(f.name) && FitUtf(f.values)
  {
    EncodeUtf(f.name) + EncodeInt(|f.values|) + EncodeTexts(f.values)
  }

  function EncodeFields(fields: seq<Field>): seq<Byte>
    requires Fit(fields)
  {
    if fields == [] then [] else EncodeField(fields[0]) + EncodeFields(fields[1..])
  }

  function EncodeHeader(fields: seq<Field>): seq<Byte>
    requires Fit(fields)
  {
    EncodeInt(|fields|) + EncodeFields(fields)
  }

  function ParseField(bytes: seq<Byte>): Parsed<Field> {
    var (name, rest) :- ParseUtf(bytes);
    var (size, rest) :- ParseInt(rest);
    if size < 0 then Failed(IllegalSize)
    else
      var (values, rest) :- ParseTexts([], size, _ => true, rest);
      Parsed(Field(name, values), rest)
  }

  function ParseFields(acc: seq<Field>, n: nat, bytes: seq<Byte>): Parsed<seq<Field>>
    decreases n
  {
    if n == 0 then Parsed(acc, bytes)
    else
      var (f, rest) :- ParseField(bytes);
      ParseFields(Put(acc, f.name, f.values), n - 1, rest)
  }

  /** A negative field count reads no field at all. */
  function ParseHeader(bytes: seq<Byte>): Parsed<seq<Field>> {
    var (n, rest) :- ParseInt(bytes);
    ParseFields([], if n < 0 then 0 else n, rest)
  }

  lemma FieldCodec(f: Field, rest: seq<Byte>)
    requires FitsUtf(f.name) && FitUtf(f.values)
    ensures ParseField(EncodeField(f) + rest) == Parsed(f, rest)
  {
    var behind := EncodeTexts(f.values) + rest;
    var middle: seq<Byte> := EncodeInt(|f.values|) + behind;
    assert EncodeField(f) + rest == EncodeUtf(f.name) + middle;
    UtfCodec(f.name, middle);
    IntCodec(|f.values|, behind);
    TextsCodec([], f.values, _ => true, rest);
    assert [] + f.values == f.values;
  }

  /** The first of the fields still to be read joins those in the map, which hold no field of its name. */
  lemma FieldsSplit(acc: seq<Field>, fields: seq<Field>, rest: seq<Byte>)
    requires fields != [] && Fit(fields) && DistinctNames(acc + fields)
    ensures var f := fields[0];
      && EncodeFields(fields) + rest == EncodeField(f) + (EncodeFields(fields[1..]) + rest)
      && Put(acc, f.name, f.values) == acc + [f] && acc + [f] + fields[1..] == acc + fields
  {
    hide EncodeField, Put;
    var f := fields[0];
    assert forall i :: 0 <= i < |acc| ==> (acc + fields)[i] == acc[i];
    assert (acc + fields)[|acc|] == f;
    PutNew(acc, f);
    Associative(EncodeField(f), EncodeFields(fields[1..]), rest);
    assert fields == [f] + fields[1..];
    Associative(acc, [f], fields[1..]);
  }

  lemma {:induction false} FieldsCodec(acc: seq<Field>, fields: seq<Field>, rest: seq<Byte>)
    requires Fit(fields) && DistinctNames(acc + fields)
    ensures ParseFields(acc, |fields|, EncodeFields(fields) + rest) == Parsed(acc + fields, rest)
    decreases |fields|
  {
    hide EncodeField, ParseField, Put, DistinctNames;
    if fields == [] {
      assert acc + fields == acc && EncodeFields(fields) + rest == rest;
    } else {
      FieldsSplit(acc, fields, rest);
      FieldCodec(fields[0], EncodeFields(fields[1..]) + rest);
      FieldsCodec(acc + [fields[0]], fields[1..], rest);
    }
  }

  /** Reading restores names, order and values, and consumes exactly what was written. */
  lemma HeaderCodec(fields: seq<Field>, rest: seq<Byte>)
    requires Fit(fields) && DistinctNames(fields)
    ensures ParseHeader(EncodeHeader(fields) + rest) == Parsed(fields, rest)
  {
    var behind := EncodeFields(fields) + rest;
    assert EncodeHeader(fields) + rest == EncodeInt(|fields|) + behind;
    IntCodec(|fields|, behind);
    assert [] + fields == fields;
    FieldsCodec([], fields, rest);
  }

  lemma {:induction false} EncodeFieldsAppend(fields: seq<Field>, f: Field)
    requires Fit(fields + [f])
    ensures Fit(fields) && FitsUtf(f.name) && FitUtf(f.values)
    ensures EncodeFields(fields + [f]) == EncodeFields(fields) + EncodeField(f)
  {
    assert (fields + [f])[|fields|] == f;
    assert forall i :: 0 <= i < |fields| ==> (fields + [f])[i] == fields[i];
    if fields == [] {
      assert fields + [f] == [f];
      assert EncodeFields([f]) == EncodeField(f) + EncodeFields([]);
    } else {
      assert (fields + [f])[1..] == fields[1..] + [f];
      EncodeFieldsAppend(fields[1..], f);
    }
  }

  /** One field more on the channel. */
  lemma FieldsSent(sent: seq<Byte>, fields: seq<Field>, i: nat)
    requires i < |fields| <= MAX_INT && Fit(fields[..i]) && FitsUtf(fields[i].name) && FitUtf(fields[i].values)
    ensures Fit(fields[..i + 1])
    ensures sent + EncodeInt(|fields|) + EncodeFields(fields[..i]) + EncodeField(fields[i])
         == sent + EncodeInt(|fields|) + EncodeFields(fields[..i + 1])
  {
    assert fields[..i + 1] == fields[..i] + [fields[i]];
    EncodeFieldsAppend(fields[..i], fields[i]);
    Associative(sent + EncodeInt(|fields|), EncodeFields(fields[..i]), EncodeField(fields[i]));
  }

  /** On the wire: the number of fields, and for each its name and its values behind their number. */
  lemma HeaderBytes()
    ensures EncodeHeader([Field([65], [[66], []]), Field([67], [])]) ==
      [0, 0, 0, 2] + [0, 1, 65, 0, 0, 0, 2, 0, 1, 66, 0, 0] + [0, 1, 67, 0, 0, 0, 0]
  {
    var fields := [Field([65], [[66], []]), Field([67], [])];
    FieldBytes();
    assert EncodeInt(2) == [0, 0, 0, 2];
    hide EncodeField, EncodeInt;
    assert fields[1..] == [fields[1]] && fields[1..][1..] == [];
    assert EncodeFields(fields) == EncodeField(fields[0]) + EncodeFields(fields[1..]);
    assert EncodeFields(fields[1..]) == EncodeField(fields[1]) + EncodeFields([]) == EncodeField(fields[1]);
    Associative([0, 0, 0, 2], EncodeField(fields[0]), EncodeField(fields[1]));
  }

  lemma FieldBytes()
    ensures EncodeField(Field([65], [[66], []])) == [0, 1, 65, 0, 0, 0, 2, 0, 1, 66, 0, 0]
    ensures EncodeField(Field([67], [])) == [0, 1, 67, 0, 0, 0, 0]
  {
    var values: seq<Text> := [[66], []];
    assert EncodeInt(0) == [0, 0, 0, 0] && EncodeInt(2) == [0, 0, 0, 2];
    assert values[1..] == [[]] && values[1..][1..] == [];
    assert EncodeTexts(values[1..]) == EncodeUtf([]) + EncodeTexts([]);
    assert EncodeTexts(values) == EncodeUtf([66]) + EncodeTexts(values[1..]) == [0, 1, 66, 0, 0];
  }

  class DefaultHeader {
    var fields: seq<Field>

    ghost predicate Valid()
      reads this
    {
      DistinctNames(fields) && |fields| <= MAX_INT
      && forall i :: 0 <= i < |fields| ==> |fields[i].values| <= MAX_INT
    }

    constructor ()
      ensures Valid() && fields == []
    {
      fields := [];
    }

    /** Follows the decoder on every input; what the header held before is gone. */
    method Read(source: Source) returns (error: Option<ReadError>)
      modifies this, source
      ensures DistinctNames(fields)
      ensures match ParseHeader(old(source.rest))
              case Failed(e) => error == Some(e)
              case Parsed(fs, rest) => error == None && fields == fs && source.rest == rest
    {
      fields := [];
      var len := ReadInt(source);
      if len.Failed? { return Some(len.error); }
      error := ReadFields(source, if len.value < 0 then 0 else len.value);
    }

    method ReadFields(source: Source, n: nat) returns (error: Option<ReadError>)
      requires fields == []
      modifies this, source
      ensures DistinctNames(fields)
      ensures match ParseFields([], n, old(source.rest))
              case Failed(e) => error == Some(e)
              case Parsed(fs, rest) => error == None && fields == fs && source.rest == rest
    {
      assert DistinctNames(fields);
      hide ParseField, DistinctNames;
      for i := 0 to n
        invariant DistinctNames(fields)
        invariant ParseFields(fields, n - i, source.rest) == ParseFields([], n, old(source.rest))
      {
        var f := ReadField(source);
        if f.Failed? { return Some(f.error); }
        fields := Put(fields, f.value.name, f.value.values);
      }
      return None;
    }

    static method ReadField(source: Source) returns (r: Parsed<Field>)
      modifies source
      ensures Agrees(old(source.rest), ParseField(old(source.rest)), source, r)
    {
      var name := ReadUtf(source);
      if name.Failed? { return Failed(name.error); }
      var size := ReadInt(source);
      if size.Failed? { return Failed(size.error); }
      if size.value < 0 { return Failed(IllegalSize); }
      var values := ReadTexts(source, size.value, _ => true);
      if values.Failed? { return Failed(values.error); }
      return Parsed(Field(name.value, values.value), source.rest);
    }

    method Write(out: Sink) returns (ok: bool)
      requires Valid()
      modifies out
      ensures ok <==> Fit(fields)
      ensures ok ==> out.sent == old(out.sent) + EncodeHeader(fields)
    {
      out.WriteInt(|fields|);
      for i := 0 to |fields|
        invariant Fit(fields[..i])
        invariant out.sent == old(out.sent) + EncodeInt(|fields|) + EncodeFields(fields[..i])
      {
        ok := WriteField(out, fields[i]);
        if !ok {
          assert fields[i] in fields;
          return;
        }
        FieldsSent(old(out.sent), fields, i);
      }
      assert fields[..|fields|] == fields;
      return true;
    }

    static method WriteField(out: Sink, f: Field) returns (ok: bool)
      requires |f.values| <= MAX_INT
      modifies out
      ensures ok <==> FitsUtf(f.name) && FitUtf(f.values)
      ensures ok ==> out.sent == old(out.sent) + EncodeField(f)
    {
      ok := WriteUtf(out, f.name);
      if !ok { return; }
      out.WriteInt(|f.values|);
      ok := WriteTexts(out, f.values);
      if ok {
        Concatenated(old(out.sent), EncodeUtf(f.name), EncodeInt(|f.values|), EncodeTexts(f.values));
      }
    }
  }
}
