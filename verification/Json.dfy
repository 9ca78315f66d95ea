/** Audit lines as JSON objects, and the integrity metadata inside them. */
module AuditJson {
  import opened Options
  import opened Decimal
  import opened Preimage

  /** Numbers keep their spelling, as a decoder with UseNumber does. */
  datatype Json =
    | Null | Bool(b: bool) | Number(lexeme: string) | Text(s: string)
    | Array(items: seq<Json>) | Object(fields: map<string, Json>)

  /** Decoding one document into a Go map: the literal `null` succeeds and leaves the map nil. */
  datatype Parsed = Malformed | NullDocument | Document(fields: map<string, Json>)

  /** encoding/json as two functions: strict decoding of one document, and encoding of a non-nil map. */
  datatype Codec = Codec(parse: string -> Parsed, marshal: map<string, Json> -> string) {
    /** Encoding and decoding `m` gives `m` back. */
    ghost predicate Stable(m: map<string, Json>) { parse(marshal(m)) == Document(m) }

    /** What is taken from the JSON library: decoded maps survive a round trip, also without
        their integrity key and with fresh integrity metadata under it; and encoded text is closed. */
    ghost predicate Faithful() {
      && (forall p :: parse(p).Document? ==> Stable(parse(p).fields))
      && (forall m :: Stable(m) ==> Stable(m - {INTEGRITY}))
      && (forall m, meta: Meta :: Stable(m) && IsHex(meta.prevHash) && IsHex(meta.entryHash)
            ==> Stable(m[INTEGRITY := MetaJson(meta)]))
      && (forall m :: Closed(marshal(m)))
    }

    function MarshalParsed(p: Parsed): string
      requires !p.Malformed?
    { if p.NullDocument? then "null" else marshal(p.fields) }
  }

  const INTEGRITY := "integrity"
  const FORMAT_VERSION: Int64 := 2

  datatype Meta = Meta(version: Int64, sequence: Int64, prevHash: string, entryHash: string)

  function MetaJson(meta: Meta): Json {
    Object(map["format_version" := Number(FormatInt(meta.version)),
               "sequence" := Number(FormatInt(meta.sequence)),
               "prev_hash" := Text(meta.prevHash),
               "entry_hash" := Text(meta.entryHash)])
  }

  function IntAt(m: map<string, Json>, k: string): Option<Int64> {
    if k in m && m[k].Number? then ParseInt64(m[k].lexeme) else None
  }

  function TextAt(m: map<string, Json>, k: string): Option<string> {
    if k in m && m[k].Text? then Some(m[k].s) else None
  }

  function MetaFromJson(v: Json): Option<Meta> {
    if !v.Object? then None
    else
      var version := IntAt(v.fields, "format_version");
      var sequence := IntAt(v.fields, "sequence");
      var prevHash := TextAt(v.fields, "prev_hash");
      var entryHash := TextAt(v.fields, "entry_hash");
      if version.None? || sequence.None? || prevHash.None? || entryHash.None? then None
      else Some(Meta(version.value, sequence.value, prevHash.value, entryHash.value))
  }

  /** Metadata is read back exactly, over the full int64 range, from these four keys. */
  lemma MetaRoundTrip(meta: Meta)
    ensures MetaFromJson(MetaJson(meta)) == Some(meta)
    ensures var m := MetaJson(meta).fields;
            && m.Keys == {"format_version", "sequence", "prev_hash", "entry_hash"}
            && IntAt(m, "format_version") == Some(meta.version) && IntAt(m, "sequence") == Some(meta.sequence)
            && TextAt(m, "prev_hash") == Some(meta.prevHash) && TextAt(m, "entry_hash") == Some(meta.entryHash)
  {
    hide ParseInt64, FormatInt;
    ParseFormat(meta.version);
    ParseFormat(meta.sequence);
  }

  const META_KEYS := {"format_version", "sequence", "prev_hash", "entry_hash"}

  /** Only those four keys are read, and none of them may be missing. */
  lemma MetaReadsFourKeys(m: map<string, Json>, n: map<string, Json>, key: string)
    requires forall k :: k in META_KEYS ==> (k in m <==> k in n) && (k in m ==> m[k] == n[k])
    ensures MetaFromJson(Object(m)) == MetaFromJson(Object(n))
    ensures key in META_KEYS && key !in m ==> MetaFromJson(Object(m)) == None
  {
    hide ParseInt64;
    assert forall k :: k in META_KEYS ==> IntAt(m, k) == IntAt(n, k) && TextAt(m, k) == TextAt(n, k);
  }

  datatype ParsedEntry = ParsedEntry(kind: string, integrity: Option<Meta>, payload: string)

  /** A log line into its event type, its metadata and the canonical payload without the metadata. */
  function ParseEntry(codec: Codec, line: string): Option<ParsedEntry> {
    match codec.parse(line)
    case Malformed => None
    case NullDocument => Some(ParsedEntry("", None, "null"))
    case Document(m) =>
      var kind := if TextAt(m, "type").Some? then TextAt(m, "type").value else "";
      if INTEGRITY !in m then Some(ParsedEntry(kind, None, codec.marshal(m)))
      else
        var meta := MetaFromJson(m[INTEGRITY]);
        if meta.None? then None else Some(ParsedEntry(kind, meta, codec.marshal(m - {INTEGRITY})))
  }

  function Strip(p: Parsed): Parsed {
    if p.Document? then Document(p.fields - {INTEGRITY}) else p
  }

  /** None when the payload does not parse or the algorithm is unknown. */
  function VerifyHash(codec: Codec, hash: Hash, meta: Meta, payload: string): Option<bool> {
    var p := codec.parse(payload);
    if p.Malformed? then None
    else
      match hash(Fields(meta.version, meta.sequence, meta.prevHash, codec.MarshalParsed(Strip(p))))
      case None => None
      case Some(actual) => Some(actual == meta.entryHash)
  }

  function VerifyWrapped(codec: Codec, hash: Hash, wrapped: string): Option<bool> {
    var p := codec.parse(wrapped);
    if p.Malformed? then None
    else if p.NullDocument? || INTEGRITY !in p.fields || MetaFromJson(p.fields[INTEGRITY]).None? then Some(false)
    else
      var meta := MetaFromJson(p.fields[INTEGRITY]).value;
      match hash(Fields(meta.version, meta.sequence, meta.prevHash, codec.marshal(p.fields - {INTEGRITY})))
      case None => None
      case Some(actual) => Some(actual == meta.entryHash)
  }

  /** What VerifyWrapped decides: true exactly of a line with readable metadata whose hash is that of the rest of the
      line, no verdict on text that does not parse, and false on a line without metadata. */
  lemma VerifiedExactly(codec: Codec, hash: Hash, line: string)
    ensures VerifyWrapped(codec, hash, line) == Some(true) <==>
            var e := ParseEntry(codec, line);
            && e.Some? && e.value.integrity.Some?
            && var meta := e.value.integrity.value;
               hash(Fields(meta.version, meta.sequence, meta.prevHash, e.value.payload)) == Some(meta.entryHash)
    ensures codec.parse(line).Malformed? ==> VerifyWrapped(codec, hash, line) == None && ParseEntry(codec, line) == None
    ensures codec.parse(line).NullDocument? || (codec.parse(line).Document? && "integrity" !in codec.parse(line).fields)
            ==> VerifyWrapped(codec, hash, line) == Some(false)
                && ParseEntry(codec, line).Some? && ParseEntry(codec, line).value.integrity.None?
    ensures codec.parse(line).Document? && "integrity" in codec.parse(line).fields
            && MetaFromJson(codec.parse(line).fields["integrity"]).None?
            ==> VerifyWrapped(codec, hash, line) == Some(false) && ParseEntry(codec, line) == None
  {}

  /** The canonical payload of an entry is the document without its metadata. */
  lemma PayloadParses(codec: Codec, line: string)
    requires codec.Faithful() && ParseEntry(codec, line).Some? && ParseEntry(codec, line).value.integrity.Some?
    ensures var payload := ParseEntry(codec, line).value.payload;
            && codec.parse(line).Document? && Closed(payload)
            && codec.parse(payload) == Document(codec.parse(line).fields - {INTEGRITY}) == Strip(codec.parse(payload))
            && payload == codec.marshal(codec.parse(line).fields - {INTEGRITY})
  {
    hide Closed;
    var m := codec.parse(line).fields;
    var bare := m - {INTEGRITY};
    assert codec.Stable(m) && codec.Stable(bare);
    assert bare - {INTEGRITY} == bare;
  }

  /** The two verification paths agree: splitting a line with ParseEntry and checking the pieces with
      VerifyHash decides exactly what VerifyWrapped decides on the whole line. */
  lemma PiecewiseVerification(codec: Codec, hash: Hash, line: string)
    requires codec.Faithful()
    ensures var e := ParseEntry(codec, line);
            e.Some? && e.value.integrity.Some? ==>
              VerifyHash(codec, hash, e.value.integrity.value, e.value.payload) == VerifyWrapped(codec, hash, line)
  {
    hide Codec.Faithful;
    var e := ParseEntry(codec, line);
    if e.Some? && e.value.integrity.Some? { PayloadParses(codec, line); }
  }
}
