/**
 The information records behind a fanotify event: a sequence of self-delimiting records, each naming a directory
 by an opaque handle that the kernel resolves, possibly with the name of an entry in it.
 */
module FanotifyInfo {
  import opened ByteOrder
  import opened Paths
  import opened Wrappers

  const INFO_TYPE_FID: Byte := 1
  const INFO_TYPE_DFID_NAME: Byte := 2
  const INFO_TYPE_DFID: Byte := 3
  const HEADER: nat := 4
  const FIXED: nat := 20

  datatype Handle = Handle(kind: int, bytes: seq<Byte>)

  /** The answers to come: that to the n-th resolution from now, for the handle it asks about. Answers may differ
      from call to call, as resolving consults the watched paths and a cache. */
  type Resolver = (nat, nat, Handle) -> Result<string, nat>

  /** The answers left after one resolution. */
  function Later(resolve: Resolver): Resolver {
    (n, fsid, handle) => resolve(n + 1, fsid, handle)
  }

  datatype ParseError =
    | TruncatedHeader | BadLength | TruncatedHandle | BadHandleLength | Unresolved(error: nat)
    | UnterminatedName | NoPath

  type Parsed = Result<string, ParseError>

  function AsInt32(n: nat): int {
    if n < 0x8000_0000 then n else n - 0x1_0000_0000
  }

  function FromInt32(k: int): nat
    requires -0x8000_0000 <= k < 0x8000_0000
  {
    if k >= 0 then k else k + 0x1_0000_0000
  }

  /** The characters of a string have these codes, in order. */
  ghost predicate Spells(s: string, bytes: seq<Byte>) {
    |s| == |bytes| && forall i :: 0 <= i < |s| ==> s[i] as int == bytes[i]
  }

  function Text(bytes: seq<Byte>): string {
    seq(|bytes|, i requires 0 <= i < |bytes| => bytes[i] as char)
  }

  /** The signed number with the same 32 bits. */
  lemma AsInt32Congruent(n: nat)
    requires n < 0x1_0000_0000
    ensures -0x8000_0000 <= AsInt32(n) < 0x8000_0000 && (AsInt32(n) == n || AsInt32(n) == n - 0x1_0000_0000)
  {
  }

  lemma TextSpells(bytes: seq<Byte>)
    ensures Spells(Text(bytes), bytes)
  {
  }

  /** The bytes form the name of a directory entry: no separator, and neither "." nor "..". */
  ghost predicate NameBytes(bytes: seq<Byte>) {
    bytes != [] && 0 !in bytes && 47 !in bytes && bytes != [46] && bytes != [46, 46]
  }

  lemma NameOfBytes(bytes: seq<Byte>)
    requires NameBytes(bytes)
    ensures IsName(Text(bytes))
  {
    var s := Text(bytes);
    forall i | 0 <= i < |s| ensures s[i] != SEPARATOR {
      assert s[i] as int == bytes[i] && bytes[i] in bytes;
    }
    assert |s| == 1 ==> bytes == [bytes[0]] && s == [bytes[0] as char];
    assert |s| == 2 ==> bytes == [bytes[0], bytes[1]] && s == [bytes[0] as char, bytes[1] as char];
  }

  /** `path` is a clean path with the components of `dir` and one more, which has exactly these bytes. */
  ghost predicate Extends(path: string, dir: string, bytes: seq<Byte>) {
    && IsClean(path) && |Tokens(path)| == |Tokens(dir)| + 1
    && Tokens(path)[..|Tokens(dir)|] == Tokens(dir)
    && Spells(Tokens(path)[|Tokens(dir)|], bytes)
  }

  lemma JoinedExtends(dir: string, bytes: seq<Byte>)
    requires IsClean(dir) && NameBytes(bytes)
    ensures Extends(JoinPath(dir, Text(bytes)), dir, bytes)
  {
    NameOfBytes(bytes);
    JoinAppends(dir, Text(bytes));
    RenderIsClean(Tokens(dir) + [Text(bytes)]);
  }

  /** A buffer begins with a record of a named entry: two bytes of type and padding, the length, the file system,
      the size and kind of the handle, the handle, the name and a zero byte at `end`. */
  ghost predicate NamedAt(order: Order, resolve: Resolver, buf: seq<Byte>, dir: string, end: nat) {
    && |buf| >= 20 && buf[0] == 2
    && var size, n := Decoded(order, buf[2..4]), Decoded(order, buf[12..16]);
      && 20 + n <= end < size <= |buf| && buf[end] == 0 && 0 !in buf[20 + n..end]
      && resolve(0, Decoded(order, buf[4..12]),
                 Handle(AsInt32(Decoded(order, buf[16..20])), buf[20..20 + n])) == Ok(dir)
  }

  // ---- Records and their encoding ----

  datatype Record =
    | Named(pad: Byte, fsid: nat, handle: Handle, name: seq<Byte>, padding: seq<Byte>)
    | Plain(kind: Byte, pad: Byte, fsid: nat, handle: Handle, padding: seq<Byte>)
    | Unknown(kind: Byte, pad: Byte, body: seq<Byte>)

  function Kind(r: Record): Byte {
    if r.Named? then INFO_TYPE_DFID_NAME else r.kind
  }

  predicate Relevant(kind: Byte) {
    kind == INFO_TYPE_DFID_NAME || kind == INFO_TYPE_DFID || kind == INFO_TYPE_FID
  }

  ghost predicate HandleOk(h: Handle) {
    -0x8000_0000 <= h.kind < 0x8000_0000 && |h.bytes| < Limit(4)
  }

  function HandleBytes(order: Order, fsid: nat, h: Handle): seq<Byte>
    requires -0x8000_0000 <= h.kind < 0x8000_0000
  {
    Encoded(order, fsid, 8) + Encoded(order, |h.bytes|, 4) + Encoded(order, FromInt32(h.kind), 4) + h.bytes
  }

  function Body(order: Order, r: Record): seq<Byte>
    requires r.Unknown? || -0x8000_0000 <= r.handle.kind < 0x8000_0000
  {
    match r
    case Named(_, fsid, h, name, padding) => HandleBytes(order, fsid, h) + name + [0] + padding
    case Plain(_, _, fsid, h, padding) => HandleBytes(order, fsid, h) + padding
    case Unknown(_, _, body) => body
  }

  ghost predicate WellFormed(order: Order, r: Record) {
    && (!r.Unknown? ==> HandleOk(r.handle) && r.fsid < Limit(8))
    && (r.Named? ==> 0 !in r.name)
    && (r.Plain? ==> r.kind == INFO_TYPE_FID || r.kind == INFO_TYPE_DFID)
    && (r.Unknown? ==> !Relevant(r.kind))
    && HEADER + |Body(order, r)| < Limit(2)
  }

  function Encode(order: Order, r: Record): seq<Byte>
    requires r.Unknown? || -0x8000_0000 <= r.handle.kind < 0x8000_0000
  {
    [Kind(r), r.pad] + Encoded(order, HEADER + |Body(order, r)|, 2) + Body(order, r)
  }

  ghost predicate AllWellFormed(order: Order, rs: seq<Record>) {
    forall i :: 0 <= i < |rs| ==> WellFormed(order, rs[i])
  }

  function EncodeAll(order: Order, rs: seq<Record>): seq<Byte>
    requires forall i :: 0 <= i < |rs| ==> rs[i].Unknown? || -0x8000_0000 <= rs[i].handle.kind < 0x8000_0000
  {
    if rs == [] then [] else Encode(order, rs[0]) + EncodeAll(order, rs[1..])
  }

  // ---- Reading one record ----

  datatype Step = Skip | Remember(path: string) | Finish(result: Parsed)

  function IndexOfZero(bytes: seq<Byte>): (i: Option<nat>)
    ensures i.None? ==> 0 !in bytes
    ensures i.Some? ==> i.value < |bytes| && bytes[i.value] == 0 && 0 !in bytes[..i.value]
  {
    if bytes == [] then None
    else if bytes[0] == 0 then Some(0)
    else match IndexOfZero(bytes[1..])
      case None => None
      case Some(i) => assert bytes[..i + 1] == [bytes[0]] + bytes[1..][..i]; Some(i + 1)
  }

  function ReadRecord(order: Order, resolve: Resolver, record: seq<Byte>): Step
    requires |record| >= HEADER
  {
    if !Relevant(record[0]) then Skip
    else if |record| < FIXED then Finish(Err(TruncatedHandle))
    else
      var size := Decoded(order, record[12..16]);
      if size > |record| - FIXED then Finish(Err(BadHandleLength))
      else
        var h := Handle(AsInt32(Decoded(order, record[16..20])), record[FIXED..FIXED + size]);
        match resolve(0, Decoded(order, record[4..12]), h)
        case Err(e) => Finish(Err(Unresolved(e)))
        case Ok(path) =>
          if record[0] != INFO_TYPE_DFID_NAME then Remember(path)
          else
            var rest := record[FIXED + size..];
            match IndexOfZero(rest)
            case None => Finish(Err(UnterminatedName))
            case Some(end) => Finish(Ok(JoinPath(path, Text(rest[..end]))))
  }

  function ParseFrom(order: Order, resolve: Resolver, fallback: string, buf: seq<Byte>): Parsed
    decreases |buf|
  {
    if buf == [] then
      if fallback != "" then Ok(fallback) else Err(NoPath)
    else if |buf| < HEADER then Err(TruncatedHeader)
    else
      var size := Decoded(order, buf[2..4]);
      if size < HEADER || size > |buf| then Err(BadLength)
      else
        match ReadRecord(order, resolve, buf[..size])
        case Skip => ParseFrom(order, resolve, fallback, buf[size..])
        case Remember(path) => ParseFrom(order, Later(resolve), path, buf[size..])
        case Finish(result) => result
  }

  lemma {:induction false} FirstZero(name: seq<Byte>, padding: seq<Byte>)
    requires 0 !in name
    ensures IndexOfZero(name + [0] + padding) == Some(|name|)
  {
    var s := name + [0] + padding;
    if name != [] {
      assert s[0] == name[0] && name[0] in name;
      assert s[1..] == name[1..] + [0] + padding;
      FirstZero(name[1..], padding);
    }
  }

  lemma SplitAtZero(buf: seq<Byte>, start: nat, end: nat, size: nat)
    requires start <= end < size <= |buf| && buf[end] == 0
    ensures buf[..size][start..] == buf[start..end] + [0] + buf[end + 1..size]
  {
    assert buf[..size][start..] == buf[start..size];
  }

  lemma FieldsOfFront(buf: seq<Byte>, size: nat, n: nat)
    requires 20 + n <= size <= |buf|
    ensures var record := buf[..size];
      && record[4..12] == buf[4..12] && record[12..16] == buf[12..16] && record[16..20] == buf[16..20]
      && record[20..20 + n] == buf[20..20 + n]
  {
  }

  function StepOf(resolve: Resolver, r: Record): Step {
    if r.Unknown? then Skip
    else
      match resolve(0, r.fsid, r.handle)
      case Err(e) => Finish(Err(Unresolved(e)))
      case Ok(path) => if r.Named? then Finish(Ok(JoinPath(path, Text(r.name)))) else Remember(path)
  }

  /** What follows the handle. */
  function After(r: Record): seq<Byte>
    requires !r.Unknown?
  {
    if r.Named? then r.name + [0] + r.padding else r.padding
  }

  /** Reading depends only on what the fields of the record decode to. */
  lemma ReadParts(order: Order, resolve: Resolver, record: seq<Byte>, r: Record)
    requires !r.Unknown? && Relevant(Kind(r)) && (r.Plain? ==> r.kind != INFO_TYPE_DFID_NAME)
    requires |record| == FIXED + |r.handle.bytes| + |After(r)| && record[0] == Kind(r)
    requires Decoded(order, record[4..12]) == r.fsid && Decoded(order, record[12..16]) == |r.handle.bytes|
    requires AsInt32(Decoded(order, record[16..20])) == r.handle.kind
    requires record[FIXED..FIXED + |r.handle.bytes|] == r.handle.bytes
    requires record[FIXED + |r.handle.bytes|..] == After(r)
    requires r.Named? ==> 0 !in r.name
    ensures ReadRecord(order, resolve, record) == StepOf(resolve, r)
  {
    if r.Named? {
      FirstZero(r.name, r.padding);
      assert After(r)[..|r.name|] == r.name;
    }
  }

  /** Reading a named record in front finds its entry. */
  lemma ReadNamed(order: Order, resolve: Resolver, buf: seq<Byte>, dir: string, end: nat)
    requires NamedAt(order, resolve, buf, dir, end)
    ensures ReadRecord(order, resolve, buf[..Decoded(order, buf[2..4])]) ==
            Finish(Ok(JoinPath(dir, Text(buf[20 + Decoded(order, buf[12..16])..end]))))
  {
    var size, n := Decoded(order, buf[2..4]), Decoded(order, buf[12..16]);
    var record := buf[..size];
    FieldsOfFront(buf, size, n);
    var h := Handle(AsInt32(Decoded(order, buf[16..20])), buf[20..20 + n]);
    SplitAtZero(buf, 20 + n, end, size);
    ReadParts(order, resolve, record,
              Named(buf[1], Decoded(order, buf[4..12]), h, buf[20 + n..end], buf[end + 1..size]));
  }

  /** A named record in front ends the parse with the path of its entry, whatever was found before. */
  lemma ParseNamed(order: Order, resolve: Resolver, fallback: string, buf: seq<Byte>, dir: string, end: nat)
    requires NamedAt(order, resolve, buf, dir, end) && IsClean(dir)
    requires NameBytes(buf[20 + Decoded(order, buf[12..16])..end])
    ensures ParseFrom(order, resolve, fallback, buf).Ok?
    ensures Extends(ParseFrom(order, resolve, fallback, buf).value, dir, buf[20 + Decoded(order, buf[12..16])..end])
  {
    ReadNamed(order, resolve, buf, dir, end);
    JoinedExtends(dir, buf[20 + Decoded(order, buf[12..16])..end]);
  }

  /** The loop that cuts one record after another off the buffer. */
  method ParseRecords(order: Order, resolve: Resolver, buffer: seq<Byte>) returns (r: Parsed)
    ensures r == ParseFrom(order, resolve, "", buffer)
  {
    var buf, fallback, answers := buffer, "", resolve;
    while |buf| > 0
      invariant ParseFrom(order, resolve, "", buffer) == ParseFrom(order, answers, fallback, buf)
      decreases |buf|
    {
      if |buf| < HEADER {
        return Err(TruncatedHeader);
      }
      var size := Decoded(order, buf[2..4]);
      if size < HEADER || size > |buf| {
        return Err(BadLength);
      }
      var record := buf[..size];
      buf := buf[size..];
      var kind := record[0];
      if kind != INFO_TYPE_DFID_NAME && kind != INFO_TYPE_DFID && kind != INFO_TYPE_FID {
        continue;
      }
      if |record| < FIXED {
        return Err(TruncatedHandle);
      }
      var fsid := Decoded(order, record[4..12]);
      var handleSize := Decoded(order, record[12..16]);
      if handleSize > |record| - FIXED {
        return Err(BadHandleLength);
      }
      var handleEnd := FIXED + handleSize;
      var handle := Handle(AsInt32(Decoded(order, record[16..20])), record[FIXED..handleEnd]);
      var resolved := answers(0, fsid, handle);
      answers := Later(answers);
      if resolved.Err? {
        return Err(Unresolved(resolved.error));
      }
      if kind == INFO_TYPE_DFID_NAME {
        var name := record[handleEnd..];
        var end := IndexOfZero(name);
        if end.None? {
          return Err(UnterminatedName);
        }
        return Ok(JoinPath(resolved.value, Text(name[..end.value])));
      }
      fallback := resolved.value;
    }
    r := if fallback != "" then Ok(fallback) else Err(NoPath);
  }

  /** The parser. If the first record names an entry, the result is the path of that entry. */
  method ParseInfo(order: Order, resolve: Resolver, buffer: seq<Byte>) returns (r: Parsed)
    ensures r == ParseFrom(order, resolve, "", buffer)
    ensures forall dir, end: nat :: NamedAt(order, resolve, buffer, dir, end) && IsClean(dir) ==>
      var name := buffer[20 + Decoded(order, buffer[12..16])..end];
      NameBytes(name) ==> r.Ok? && Extends(r.value, dir, name)
  {
    r := ParseRecords(order, resolve, buffer);
    forall dir, end: nat | NamedAt(order, resolve, buffer, dir, end) && IsClean(dir)
      ensures var name := buffer[20 + Decoded(order, buffer[12..16])..end];
        NameBytes(name) ==> r.Ok? && Extends(r.value, dir, name)
    {
      if NameBytes(buffer[20 + Decoded(order, buffer[12..16])..end]) {
        ParseNamed(order, resolve, "", buffer, dir, end);
      }
    }
  }

  // ---- What a record list stands for ----

  /** The answers left behind a record, and behind a list. */
  function Behind(resolve: Resolver, r: Record): Resolver {
    if r.Unknown? then resolve else Later(resolve)
  }

  function BehindAll(resolve: Resolver, rs: seq<Record>): Resolver {
    if rs == [] then resolve else BehindAll(Behind(resolve, rs[0]), rs[1..])
  }

  /** Unnamed records that can be resolved only supply a fallback. */
  ghost predicate Passes(resolve: Resolver, rs: seq<Record>)
    decreases |rs|
  {
    rs == [] || (!StepOf(resolve, rs[0]).Finish? && Passes(Behind(resolve, rs[0]), rs[1..]))
  }

  function Fallback(resolve: Resolver, fallback: string, rs: seq<Record>): string
    decreases |rs|
  {
    if rs == [] then fallback
    else
      var step := StepOf(resolve, rs[0]);
      Fallback(Behind(resolve, rs[0]), if step.Remember? then step.path else fallback, rs[1..])
  }

  /** The fallback is what the last record of a known kind resolves to. */
  lemma {:induction false} FallbackIsLast(resolve: Resolver, fallback: string, rs: seq<Record>, k: nat)
    requires k <= |rs| && forall i :: k <= i < |rs| ==> rs[i].Unknown?
    requires k > 0 ==> StepOf(BehindAll(resolve, rs[..k - 1]), rs[k - 1]).Remember?
    ensures Fallback(resolve, fallback, rs) ==
            if k == 0 then fallback else StepOf(BehindAll(resolve, rs[..k - 1]), rs[k - 1]).path
    decreases |rs|
  {
    if rs != [] {
      var step := StepOf(resolve, rs[0]);
      var next := if step.Remember? then step.path else fallback;
      if k > 1 {
        assert rs[..k - 1][1..] == rs[1..][..k - 2];
        FallbackIsLast(Behind(resolve, rs[0]), next, rs[1..], k - 1);
      } else {
        FallbackIsLast(Behind(resolve, rs[0]), next, rs[1..], 0);
      }
    }
  }

  // ---- Parsing inverts encoding ----

  lemma Regroup(a: seq<Byte>, b: seq<Byte>, c: seq<Byte>)
    ensures a + b + c == a + (b + c)
  {
  }

  lemma LimitFour()
    ensures Limit(4) == 0x1_0000_0000
  {
  }

  lemma HandleEncoded(order: Order, fsid: nat, h: Handle, before: seq<Byte>, after: seq<Byte>)
    requires HandleOk(h) && fsid < Limit(8) && |before| == HEADER
    ensures var record := before + HandleBytes(order, fsid, h) + after;
            && |record| == FIXED + |h.bytes| + |after|
            && Decoded(order, record[4..12]) == fsid
            && Decoded(order, record[12..16]) == |h.bytes|
            && AsInt32(Decoded(order, record[16..20])) == h.kind
            && record[FIXED..FIXED + |h.bytes|] == h.bytes
            && record[FIXED + |h.bytes|..] == after
  {
    var record := before + HandleBytes(order, fsid, h) + after;
    assert record[4..12] == Encoded(order, fsid, 8);
    assert record[12..16] == Encoded(order, |h.bytes|, 4);
    assert record[16..20] == Encoded(order, FromInt32(h.kind), 4);
    DecodedEncoded(order, fsid, 8);
    DecodedEncoded(order, |h.bytes|, 4);
    LimitFour();
    DecodedEncoded(order, FromInt32(h.kind), 4);
  }

  function Head(order: Order, r: Record): (head: seq<Byte>)
    requires r.Unknown? || -0x8000_0000 <= r.handle.kind < 0x8000_0000
    ensures |head| == HEADER && head[0] == Kind(r)
  {
    [Kind(r), r.pad] + Encoded(order, HEADER + |Body(order, r)|, 2)
  }

  lemma BodyShape(order: Order, r: Record)
    requires !r.Unknown? && HandleOk(r.handle)
    ensures Body(order, r) == HandleBytes(order, r.fsid, r.handle) + After(r)
  {
  }

  lemma EncodeShape(order: Order, r: Record)
    requires !r.Unknown? && HandleOk(r.handle)
    ensures Encode(order, r) == Head(order, r) + HandleBytes(order, r.fsid, r.handle) + After(r)
  {
  }

  lemma ReadEncoded(order: Order, resolve: Resolver, r: Record)
    requires WellFormed(order, r)
    ensures ReadRecord(order, resolve, Encode(order, r)) == StepOf(resolve, r)
  {
    if !r.Unknown? {
      EncodeShape(order, r);
      HandleEncoded(order, r.fsid, r.handle, Head(order, r), After(r));
      ReadParts(order, resolve, Encode(order, r), r);
    }
  }

  /** The length field of an encoded record holds its length. */
  lemma EncodeDelimits(order: Order, r: Record)
    requires WellFormed(order, r)
    ensures HEADER <= |Encode(order, r)| == Decoded(order, Encode(order, r)[2..4])
  {
    var n := HEADER + |Body(order, r)|;
    assert Encode(order, r)[2..4] == Encoded(order, n, 2);
    DecodedEncoded(order, n, 2);
  }

  /** One record in front decides one step, whatever follows it. */
  lemma ParseRecord(order: Order, resolve: Resolver, fallback: string, r: Record, rest: seq<Byte>)
    requires WellFormed(order, r)
    ensures ParseFrom(order, resolve, fallback, Encode(order, r) + rest) ==
      match StepOf(resolve, r)
      case Skip => ParseFrom(order, resolve, fallback, rest)
      case Remember(path) => ParseFrom(order, Later(resolve), path, rest)
      case Finish(result) => result
  {
    var e := Encode(order, r);
    var buf := e + rest;
    EncodeDelimits(order, r);
    assert buf[2..4] == e[2..4];
    assert buf[..|e|] == e && buf[|e|..] == rest;
    ReadEncoded(order, resolve, r);
  }

  lemma {:induction false} ParsePassing(order: Order, resolve: Resolver, fallback: string, rs: seq<Record>,
                                       rest: seq<Byte>)
    requires AllWellFormed(order, rs) && Passes(resolve, rs)
    ensures ParseFrom(order, resolve, fallback, EncodeAll(order, rs) + rest) ==
            ParseFrom(order, BehindAll(resolve, rs), Fallback(resolve, fallback, rs), rest)
    decreases |rs|
  {
    if rs == [] {
      assert EncodeAll(order, rs) + rest == rest;
    } else {
      var step, more := StepOf(resolve, rs[0]), EncodeAll(order, rs[1..]) + rest;
      Regroup(Encode(order, rs[0]), EncodeAll(order, rs[1..]), rest);
      ParseRecord(order, resolve, fallback, rs[0], more);
      ParsePassing(order, Behind(resolve, rs[0]), if step.Remember? then step.path else fallback, rs[1..], rest);
    }
  }

  /** A list without named records yields the last path resolved, if there is one. */
  lemma ParseUnnamed(order: Order, resolve: Resolver, rs: seq<Record>)
    requires AllWellFormed(order, rs) && Passes(resolve, rs)
    ensures ParseFrom(order, resolve, "", EncodeAll(order, rs)) ==
            var last := Fallback(resolve, "", rs); if last != "" then Ok(last) else Err(NoPath)
  {
    ParsePassing(order, resolve, "", rs, []);
    assert EncodeAll(order, rs) + [] == EncodeAll(order, rs);
  }

  /** The first named record, or the first that cannot be resolved, decides; nothing behind it is looked at. */
  lemma ParseDecides(order: Order, resolve: Resolver, rs: seq<Record>, r: Record, rest: seq<Byte>)
    requires AllWellFormed(order, rs) && Passes(resolve, rs)
    requires WellFormed(order, r) && StepOf(BehindAll(resolve, rs), r).Finish?
    ensures ParseFrom(order, resolve, "", EncodeAll(order, rs) + Encode(order, r) + rest) ==
            StepOf(BehindAll(resolve, rs), r).result
  {
    Regroup(EncodeAll(order, rs), Encode(order, r), rest);
    ParsePassing(order, resolve, "", rs, Encode(order, r) + rest);
    ParseRecord(order, BehindAll(resolve, rs), Fallback(resolve, "", rs), r, rest);
  }

  /** How many records a list has that ask for a resolution. */
  function Resolving(rs: seq<Record>): nat {
    if rs == [] then 0 else (if rs[0].Unknown? then 0 else 1) + Resolving(rs[1..])
  }

  lemma LaterIs(resolve: Resolver, n: nat, fsid: nat, handle: Handle)
    ensures Later(resolve)(n, fsid, handle) == resolve(n + 1, fsid, handle)
  {
  }

  /** Behind a list the next answer is the one after those its records took. */
  lemma {:induction false} BehindIs(resolve: Resolver, rs: seq<Record>, n: nat, fsid: nat, handle: Handle)
    ensures BehindAll(resolve, rs)(n, fsid, handle) == resolve(n + Resolving(rs), fsid, handle)
    decreases |rs|
  {
    if rs != [] {
      if rs[0].Unknown? {
        BehindIs(resolve, rs[1..], n, fsid, handle);
      } else {
        BehindIs(Later(resolve), rs[1..], n, fsid, handle);
        LaterIs(resolve, n + Resolving(rs[1..]), fsid, handle);
      }
    }
  }

  lemma NamedStep(resolve: Resolver, rs: seq<Record>, r: Record, dir: string)
    requires r.Named? && resolve(Resolving(rs), r.fsid, r.handle) == Ok(dir)
    ensures StepOf(BehindAll(resolve, rs), r) == Finish(Ok(JoinPath(dir, Text(r.name))))
  {
    BehindIs(resolve, rs, 0, r.fsid, r.handle);
  }

  /** A named record behind any list of unnamed ones gives the path of its entry: the components of its directory,
      as its own resolution answers, and one more with exactly the bytes of the name. */
  lemma NamedGivesEntry(order: Order, resolve: Resolver, rs: seq<Record>, r: Record, rest: seq<Byte>, dir: CleanPath)
    requires AllWellFormed(order, rs) && Passes(resolve, rs) && WellFormed(order, r) && r.Named?
    requires resolve(Resolving(rs), r.fsid, r.handle) == Ok(dir) && NameBytes(r.name)
    ensures var result := ParseFrom(order, resolve, "", EncodeAll(order, rs) + Encode(order, r) + rest);
      result.Ok? && Extends(result.value, dir, r.name)
  {
    NamedStep(resolve, rs, r, dir);
    ParseDecides(order, resolve, rs, r, rest);
    JoinedExtends(dir, r.name);
  }

  /** What the front of a buffer says, byte by byte, when it is not a terminated named record. */
  lemma FrontDecides(order: Order, resolve: Resolver, fallback: string, buf: seq<Byte>)
    requires buf != []
    ensures var r := ParseFrom(order, resolve, fallback, buf);
      if |buf| < 4 then r == Err(TruncatedHeader)
      else
        var size := Decoded(order, buf[2..4]);
        if size < 4 || |buf| < size then r == Err(BadLength)
        else if buf[0] !in {1, 2, 3} then r == ParseFrom(order, resolve, fallback, buf[size..])
        else if size < 20 then r == Err(TruncatedHandle)
        else
          var n := Decoded(order, buf[12..16]);
          if size < 20 + n then r == Err(BadHandleLength)
          else
            match resolve(0, Decoded(order, buf[4..12]),
                          Handle(AsInt32(Decoded(order, buf[16..20])), buf[20..20 + n]))
            case Err(e) => r == Err(Unresolved(e))
            case Ok(path) =>
              if buf[0] != 2 then r == ParseFrom(order, Later(resolve), path, buf[size..])
              else 0 !in buf[20 + n..size] ==> r == Err(UnterminatedName)
  {
    if |buf| >= 4 && 4 <= Decoded(order, buf[2..4]) <= |buf| {
      var size := Decoded(order, buf[2..4]);
      if size >= 20 {
        FieldsOfFront(buf, size, 0);
        var n := Decoded(order, buf[12..16]);
        if 20 + n <= size {
          FieldsOfFront(buf, size, n);
          assert buf[..size][20 + n..] == buf[20 + n..size];
        }
      }
    }
  }

  /** Cutting a list inside a record is always noticed. */
  lemma ParseTruncated(order: Order, resolve: Resolver, rs: seq<Record>, r: Record, n: nat)
    requires AllWellFormed(order, rs) && Passes(resolve, rs) && WellFormed(order, r)
    requires 0 < n < |Encode(order, r)|
    ensures ParseFrom(order, resolve, "", EncodeAll(order, rs) + Encode(order, r)[..n]) ==
            Err(if n < HEADER then TruncatedHeader else BadLength)
  {
    var cut := Encode(order, r)[..n];
    ParsePassing(order, resolve, "", rs, cut);
    if n >= HEADER {
      EncodeDelimits(order, r);
      assert cut[2..4] == Encode(order, r)[2..4];
    }
  }

  // ---- Whatever is accepted is an encoding ----

  lemma Pieces(body: seq<Byte>, size: nat)
    requires 16 + size <= |body|
    ensures body == body[..8] + body[8..12] + body[12..16] + body[16..16 + size] + body[16 + size..]
  {
  }

  lemma DecodedHandle(order: Order, body: seq<Byte>) returns (fsid: nat, h: Handle, after: seq<Byte>)
    requires |body| >= 16 && Decoded(order, body[8..12]) <= |body| - 16
    ensures |h.bytes| == Decoded(order, body[8..12]) && after == body[16 + |h.bytes|..]
    ensures HandleOk(h) && fsid < Limit(8) && body == HandleBytes(order, fsid, h) + after
  {
    var size := Decoded(order, body[8..12]);
    EncodedDecoded(order, body[..8]);
    EncodedDecoded(order, body[8..12]);
    EncodedDecoded(order, body[12..16]);
    LimitFour();
    fsid, h := Decoded(order, body[..8]), Handle(AsInt32(Decoded(order, body[12..16])), body[16..16 + size]);
    after := body[16 + size..];
    Pieces(body, size);
  }

  lemma Delimited(order: Order, r: Record, bytes: seq<Byte>)
    requires r.Unknown? || HandleOk(r.handle)
    requires HEADER <= |bytes| == Decoded(order, bytes[2..4])
    requires bytes[0] == Kind(r) && bytes[1] == r.pad && bytes[4..] == Body(order, r)
    ensures Encode(order, r) == bytes && |bytes| < Limit(2)
  {
    EncodedDecoded(order, bytes[2..4]);
    assert bytes == [bytes[0], bytes[1]] + bytes[2..4] + bytes[4..];
  }

  function NamedOf(pad: Byte, fsid: nat, h: Handle, after: seq<Byte>): (r: Record)
    requires IndexOfZero(after).Some?
    ensures r.Named? && r.pad == pad && r.fsid == fsid && r.handle == h && After(r) == after && 0 !in r.name
  {
    var end := IndexOfZero(after).value;
    assert after == after[..end] + [0] + after[end + 1..];
    Named(pad, fsid, h, after[..end], after[end + 1..])
  }

  /** The record that a well-delimited stretch of bytes encodes, unless reading it fails. */
  lemma RecordOf(order: Order, resolve: Resolver, bytes: seq<Byte>) returns (r: Record)
    requires HEADER <= |bytes| == Decoded(order, bytes[2..4])
    requires var step := ReadRecord(order, resolve, bytes); step.Finish? ==> step.result.Ok?
    ensures WellFormed(order, r) && Encode(order, r) == bytes
  {
    var body := bytes[4..];
    if !Relevant(bytes[0]) {
      r := Unknown(bytes[0], bytes[1], body);
    } else {
      assert body[8..12] == bytes[12..16];
      var fsid, h, after := DecodedHandle(order, body);
      assert bytes[FIXED + |h.bytes|..] == after by {
        assert after == body[16 + |h.bytes|..];
      }
      r := if bytes[0] == INFO_TYPE_DFID_NAME then NamedOf(bytes[1], fsid, h, after)
           else Plain(bytes[0], bytes[1], fsid, h, after);
      BodyShape(order, r);
    }
    Delimited(order, r, bytes);
  }

  /** The result a list stands for: what its first deciding record says, else the last fallback. */
  function Meaning(resolve: Resolver, fallback: string, rs: seq<Record>): Parsed
    decreases |rs|
  {
    if rs == [] then
      if fallback != "" then Ok(fallback) else Err(NoPath)
    else
      match StepOf(resolve, rs[0])
      case Skip => Meaning(resolve, fallback, rs[1..])
      case Remember(path) => Meaning(Later(resolve), path, rs[1..])
      case Finish(result) => result
  }

  ghost predicate EndsNamed(rs: seq<Record>) {
    rs != [] && rs[|rs| - 1].Named?
  }

  /** A buffer is a list of well-formed records followed by nothing, or by anything if the last one is named. */
  ghost predicate IsEncoding(order: Order, rs: seq<Record>, rest: seq<Byte>, buf: seq<Byte>) {
    AllWellFormed(order, rs) && buf == EncodeAll(order, rs) + rest && (rest == [] || EndsNamed(rs))
  }

  lemma EncodingCons(order: Order, r: Record, rs: seq<Record>, rest: seq<Byte>, buf: seq<Byte>)
    requires WellFormed(order, r) && IsEncoding(order, rs, rest, buf)
    ensures IsEncoding(order, [r] + rs, rest, Encode(order, r) + buf)
  {
    var all := [r] + rs;
    assert all[1..] == rs;
    assert rs != [] ==> all[|all| - 1] == rs[|rs| - 1];
    Regroup(Encode(order, r), EncodeAll(order, rs), rest);
  }

  lemma EncodingLast(order: Order, r: Record, rest: seq<Byte>)
    requires WellFormed(order, r) && r.Named?
    ensures IsEncoding(order, [r], rest, Encode(order, r) + rest)
  {
  }

  /** The round trip: parsing an encoded list gives what the list stands for. */
  lemma {:induction false} ParseOfEncoding(order: Order, resolve: Resolver, fallback: string, rs: seq<Record>,
                                           rest: seq<Byte>, buf: seq<Byte>)
    requires IsEncoding(order, rs, rest, buf)
    ensures ParseFrom(order, resolve, fallback, buf) == Meaning(resolve, fallback, rs)
    decreases |rs|
  {
    if rs == [] {
      assert buf == [];
    } else {
      var more, step := EncodeAll(order, rs[1..]) + rest, StepOf(resolve, rs[0]);
      Regroup(Encode(order, rs[0]), EncodeAll(order, rs[1..]), rest);
      ParseRecord(order, resolve, fallback, rs[0], more);
      if !step.Finish? {
        ParseOfEncoding(order, Behind(resolve, rs[0]), if step.Remember? then step.path else fallback,
                        rs[1..], rest, more);
      }
    }
  }

  /** The converse: every accepted buffer encodes a list of well-formed records that stands for the result. */
  lemma {:induction false} AcceptedIsEncoded(order: Order, resolve: Resolver, fallback: string, buf: seq<Byte>)
    returns (rs: seq<Record>, rest: seq<Byte>)
    requires ParseFrom(order, resolve, fallback, buf).Ok?
    ensures IsEncoding(order, rs, rest, buf)
    ensures ParseFrom(order, resolve, fallback, buf) == Meaning(resolve, fallback, rs)
    decreases |buf|
  {
    rs, rest := [], [];
    if buf == [] {
      return;
    }
    var record, more := buf[..Decoded(order, buf[2..4])], buf[Decoded(order, buf[2..4])..];
    assert record[2..4] == buf[2..4] && buf == record + more;
    var r := RecordOf(order, resolve, record);
    ParseRecord(order, resolve, fallback, r, more);
    var step := StepOf(resolve, r);
    if step.Finish? {
      rs, rest := [r], more;
      EncodingLast(order, r, more);
    } else {
      var tail;
      tail, rest := AcceptedIsEncoded(order, Behind(resolve, r), if step.Remember? then step.path else fallback, more);
      rs := [r] + tail;
      EncodingCons(order, r, tail, rest, more);
      assert rs[1..] == tail;
    }
  }
}
