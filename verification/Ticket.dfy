/** Drop tickets: printing, parsing, and the links that carry them. */
module Ticket {
  import opened Common
  import opened Postcard
  import Base32
  import Unicode

  const TICKET_PREFIX: string := "drop2"
  const LEGACY_TICKET_PREFIX: string := "drop1"
  const TICKET_SCHEMA_VERSION: nat := 3
  const MAX_TICKET_LEN: nat := 8192
  const MAX_BOOTSTRAP_NODES: nat := 16
  const MAX_DIRECT_ADDRS: nat := 8
  const MAX_RELAY_URL_LEN: nat := 255
  const MAX_DISPLAY_NAME_LEN: nat := 255

  datatype Mode = Public | Sealed

  /** `(ip, port)` */
  type Direct = (Bytes, nat)

  datatype Addr = Addr(endpointId: Bytes, relayUrl: Option<Bytes>, directV4: seq<Direct>, directV6: seq<Direct>)

  datatype Options = Options(autoFetchRecommended: bool, displayName: Option<Bytes>)

  datatype Ticket = Ticket(version: nat, topicId: Bytes, bootstrapNodes: seq<Addr>, options: Options, mode: Byte,
                           dropKey: Option<Bytes>)

  datatype Error =
    | TooLong
    | BadPrefix
    | BadBase32
    | BadPostcard
    | UnsupportedVersion(version: nat)
    | UnknownMode
    | PublicWithKey
    | TooManyBootstrap
    | TooManyDirect
    | RelayUrlTooLong
    | BadEndpointId
    | BadRelayUrl
    | DisplayNameTooLong

  /** Which 32 bytes are a public key and which texts are a URL is for others to
      say. */
  datatype World = World(isKey: Bytes -> bool, isUrl: Bytes -> bool)

  // ----- The wire form -----

  type AddrTuple = (Bytes, (Option<Bytes>, (seq<Direct>, seq<Direct>)))

  function ToAddr(t: AddrTuple): Addr {
    Addr(t.0, t.1.0, t.1.1.0, t.1.1.1)
  }

  function FromAddr(a: Addr): AddrTuple {
    (a.endpointId, (a.relayUrl, (a.directV4, a.directV6)))
  }

  function ToOptions(t: (bool, Option<Bytes>)): Options {
    Options(t.0, t.1)
  }

  function FromOptions(o: Options): (bool, Option<Bytes>) {
    (o.autoFetchRecommended, o.displayName)
  }

  type TicketTuple = (nat, (Bytes, (seq<Addr>, (Options, (Byte, Option<Bytes>)))))

  function ToTicket(t: TicketTuple): Ticket {
    Ticket(t.0, t.1.0, t.1.1.0, t.1.1.1.0, t.1.1.1.1.0, t.1.1.1.1.1)
  }

  function FromTicket(t: Ticket): TicketTuple {
    (t.version, (t.topicId, (t.bootstrapNodes, (t.options, (t.mode, t.dropKey)))))
  }

  const DirectV4: Codec<Direct> := Both(Raw(4), U16)
  const DirectV6: Codec<Direct> := Both(Raw(16), U16)
  const AddrFields: Codec<AddrTuple> := Both(Raw(32), Both(Opt(Text), Both(Many(DirectV4), Many(DirectV6))))
  const AddrCodec: Codec<Addr> := Via(AddrFields, ToAddr, FromAddr)
  const OptionsCodec: Codec<Options> := Via(Both(Flag, Opt(Text)), ToOptions, FromOptions)
  const TicketFields: Codec<TicketTuple> :=
    Both(U16, Both(Raw(32), Both(Many(AddrCodec), Both(OptionsCodec, Both(Tag(256), Opt(Raw(32)))))))
  const TicketCodec: Codec<Ticket> := Via(TicketFields, ToTicket, FromTicket)

  lemma {:induction false} AddrIsLawful()
    ensures Lawful(AddrCodec)
  {
    RawIsLawful(4);
    RawIsLawful(16);
    RawIsLawful(32);
    UIntIsLawful(3, 3);
    TextIsLawful();
    BothIsLawful(Raw(4), U16);
    BothIsLawful(Raw(16), U16);
    ManyIsLawful(DirectV4);
    ManyIsLawful(DirectV6);
    OptIsLawful(Text);
    BothIsLawful(Many(DirectV4), Many(DirectV6));
    BothIsLawful(Opt(Text), Both(Many(DirectV4), Many(DirectV6)));
    BothIsLawful(Raw(32), Both(Opt(Text), Both(Many(DirectV4), Many(DirectV6))));
    ViaIsLawful(AddrFields, ToAddr, FromAddr);
  }

  lemma {:induction false} OptionsAreLawful()
    ensures Lawful(OptionsCodec)
  {
    FlagIsLawful();
    TextIsLawful();
    OptIsLawful(Text);
    BothIsLawful(Flag, Opt(Text));
    ViaIsLawful(Both(Flag, Opt(Text)), ToOptions, FromOptions);
  }

  lemma {:induction false} TicketIsLawful()
    ensures Lawful(TicketCodec)
  {
    AddrIsLawful();
    OptionsAreLawful();
    UIntIsLawful(3, 3);
    RawIsLawful(32);
    TagIsLawful(256);
    OptIsLawful(Raw(32));
    ManyIsLawful(AddrCodec);
    BothIsLawful(Tag(256), Opt(Raw(32)));
    BothIsLawful(OptionsCodec, Both(Tag(256), Opt(Raw(32))));
    BothIsLawful(Many(AddrCodec), Both(OptionsCodec, Both(Tag(256), Opt(Raw(32)))));
    BothIsLawful(Raw(32), Both(Many(AddrCodec), Both(OptionsCodec, Both(Tag(256), Opt(Raw(32))))));
    BothIsLawful(U16, Both(Raw(32), Both(Many(AddrCodec), Both(OptionsCodec, Both(Tag(256), Opt(Raw(32)))))));
    ViaIsLawful(TicketFields, ToTicket, FromTicket);
  }

  lemma {:induction false} AddrLayout(a: Addr)
    ensures AddrCodec.enc(a) ==
            a.endpointId +
            (Opt(Text).enc(a.relayUrl) + (Many(DirectV4).enc(a.directV4) + Many(DirectV6).enc(a.directV6)))
  {
    ViaIs(AddrFields, ToAddr, FromAddr, a);
    BothIs(Raw(32), Both(Opt(Text), Both(Many(DirectV4), Many(DirectV6))), FromAddr(a));
    BothIs(Opt(Text), Both(Many(DirectV4), Many(DirectV6)), FromAddr(a).1);
    BothIs(Many(DirectV4), Many(DirectV6), FromAddr(a).1.1);
  }

  /** The ticket, field by field: the version, the topic, the nodes, the hint, the
      name, the mode and the key. */
  lemma {:induction false} TicketLayout(t: Ticket)
    ensures TicketCodec.enc(t) ==
            Varint(t.version) + (t.topicId + (Many(AddrCodec).enc(t.bootstrapNodes) +
                (([if t.options.autoFetchRecommended then 1 else 0] + Opt(Text).enc(t.options.displayName)) +
                    ([t.mode] + (if t.dropKey.None? then [0] else [1] + t.dropKey.value)))))
  {
    var f := FromTicket(t);
    ViaIs(TicketFields, ToTicket, FromTicket, t);
    BothIs(U16, Both(Raw(32), Both(Many(AddrCodec), Both(OptionsCodec, Both(Tag(256), Opt(Raw(32)))))), f);
    BothIs(Raw(32), Both(Many(AddrCodec), Both(OptionsCodec, Both(Tag(256), Opt(Raw(32))))), f.1);
    BothIs(Many(AddrCodec), Both(OptionsCodec, Both(Tag(256), Opt(Raw(32)))), f.1.1);
    BothIs(OptionsCodec, Both(Tag(256), Opt(Raw(32))), f.1.1.1);
    BothIs(Tag(256), Opt(Raw(32)), f.1.1.1.1);
    ViaIs(Both(Flag, Opt(Text)), ToOptions, FromOptions, t.options);
    BothIs(Flag, Opt(Text), FromOptions(t.options));
    ViaIs(Tag(2), ToFlag, FromFlag, t.options.autoFetchRecommended);
  }

  lemma {:induction false} AddrOk(a: Addr)
    ensures AddrCodec.ok(a) <==>
            && |a.endpointId| == 32 && Opt(Text).ok(a.relayUrl)
            && Many(DirectV4).ok(a.directV4) && Many(DirectV6).ok(a.directV6)
  {
    ViaIs(AddrFields, ToAddr, FromAddr, a);
    BothIs(Raw(32), Both(Opt(Text), Both(Many(DirectV4), Many(DirectV6))), FromAddr(a));
    BothIs(Opt(Text), Both(Many(DirectV4), Many(DirectV6)), FromAddr(a).1);
    BothIs(Many(DirectV4), Many(DirectV6), FromAddr(a).1.1);
  }

  /** Every ticket with a topic and a key of 32 bytes, a name that is a text, and
      nodes that can be encoded. */
  lemma {:induction false} TicketOk(t: Ticket)
    ensures TicketCodec.ok(t) <==>
            && t.version <= 0xFFFF && |t.topicId| == 32 && Many(AddrCodec).ok(t.bootstrapNodes)
            && Opt(Text).ok(t.options.displayName) && (t.dropKey.Some? ==> |t.dropKey.value| == 32)
  {
    var f := FromTicket(t);
    ViaIs(TicketFields, ToTicket, FromTicket, t);
    BothIs(U16, Both(Raw(32), Both(Many(AddrCodec), Both(OptionsCodec, Both(Tag(256), Opt(Raw(32)))))), f);
    BothIs(Raw(32), Both(Many(AddrCodec), Both(OptionsCodec, Both(Tag(256), Opt(Raw(32))))), f.1);
    BothIs(Many(AddrCodec), Both(OptionsCodec, Both(Tag(256), Opt(Raw(32)))), f.1.1);
    BothIs(OptionsCodec, Both(Tag(256), Opt(Raw(32))), f.1.1.1);
    BothIs(Tag(256), Opt(Raw(32)), f.1.1.1.1);
    ViaIs(Both(Flag, Opt(Text)), ToOptions, FromOptions, t.options);
    BothIs(Flag, Opt(Text), FromOptions(t.options));
    ViaIs(Tag(2), ToFlag, FromFlag, t.options.autoFetchRecommended);
    WordsOk(t.version);
  }

  // ----- Validation -----

  function ModeOf(mode: Byte): Option<Mode> {
    if mode == 0 then Some(Public) else if mode == 1 then Some(Sealed) else None
  }

  function AddrError(w: World, a: Addr): Option<Error> {
    if |a.directV4| > MAX_DIRECT_ADDRS || |a.directV6| > MAX_DIRECT_ADDRS then Some(TooManyDirect)
    else if a.relayUrl.Some? && |a.relayUrl.value| > MAX_RELAY_URL_LEN then Some(RelayUrlTooLong)
    else if !w.isKey(a.endpointId) then Some(BadEndpointId)
    else if a.relayUrl.Some? && !w.isUrl(a.relayUrl.value) then Some(BadRelayUrl)
    else None
  }

  function NodesError(w: World, nodes: seq<Addr>): Option<Error> {
    if nodes == [] then None
    else if AddrError(w, nodes[0]).Some? then AddrError(w, nodes[0])
    else NodesError(w, nodes[1..])
  }

  /** What is wrong with a ticket, if anything, first things first. */
  function TicketError(w: World, t: Ticket): Option<Error> {
    if ModeOf(t.mode).None? then Some(UnknownMode)
    else if t.mode == 0 && t.dropKey.Some? then Some(PublicWithKey)
    else if |t.bootstrapNodes| > MAX_BOOTSTRAP_NODES then Some(TooManyBootstrap)
    else if NodesError(w, t.bootstrapNodes).Some? then NodesError(w, t.bootstrapNodes)
    else if t.options.displayName.Some? && |t.options.displayName.value| > MAX_DISPLAY_NAME_LEN then
      Some(DisplayNameTooLong)
    else None
  }

  /** A node is sound if it lists at most eight addresses of either kind, has a key,
      and names its relay by a URL of at most 255 bytes, if at all. */
  ghost predicate IsSoundAddr(w: World, a: Addr) {
    && |a.directV4| <= 8 && |a.directV6| <= 8 && w.isKey(a.endpointId)
    && (a.relayUrl.Some? ==> |a.relayUrl.value| <= 255 && w.isUrl(a.relayUrl.value))
  }

  lemma {:induction false} NodesExactly(w: World, nodes: seq<Addr>)
    ensures NodesError(w, nodes).None? <==> forall a :: a in nodes ==> IsSoundAddr(w, a)
  {
    if nodes != [] {
      NodesExactly(w, nodes[1..]);
      assert AddrError(w, nodes[0]).None? <==> IsSoundAddr(w, nodes[0]);
      assert nodes == [nodes[0]] + nodes[1..];
      assert forall a :: a in nodes <==> a == nodes[0] || a in nodes[1..];
    }
  }

  /** A ticket passes validation if and only if its mode is public without a key, or
      sealed, its nodes are at most sixteen sound ones, and its name has at most
      255 bytes. */
  lemma {:induction false} SoundExactly(w: World, t: Ticket)
    ensures TicketError(w, t).None? <==>
            && (t.mode == 1 || (t.mode == 0 && t.dropKey.None?))
            && |t.bootstrapNodes| <= 16 && (forall a :: a in t.bootstrapNodes ==> IsSoundAddr(w, a))
            && (t.options.displayName.Some? ==> |t.options.displayName.value| <= 255)
    ensures t.mode > 1 ==> TicketError(w, t) == Some(UnknownMode)
    ensures t.mode == 0 && t.dropKey.Some? ==> TicketError(w, t) == Some(PublicWithKey)
  {
    NodesExactly(w, t.bootstrapNodes);
  }

  // ----- Text -----

  /** The characters with the Unicode property White_Space. */
  predicate IsSpace(c: char) {
    var n := c as int;
    9 <= n <= 13 || n == 32 || n == 0x85 || n == 0xA0 || n == 0x1680 || 0x2000 <= n <= 0x200A ||
    n == 0x2028 || n == 0x2029 || n == 0x202F || n == 0x205F || n == 0x3000
  }

  function TrimStart(s: string): (r: string)
    ensures |r| <= |s|
  {
    if s != [] && IsSpace(s[0]) then TrimStart(s[1..]) else s
  }

  function TrimEnd(s: string): (r: string)
    ensures |r| <= |s|
  {
    if s != [] && IsSpace(s[|s| - 1]) then TrimEnd(s[..|s| - 1]) else s
  }

  function Trim(s: string): string {
    TrimEnd(TrimStart(s))
  }

  function Utf8Size(c: char): nat {
    var n := c as int;
    if n < 0x80 then 1 else if n < 0x800 then 2 else if n < 0x1_0000 then 3 else 4
  }

  /** The length of a text in bytes. */
  function Size(s: string): (n: nat)
    ensures n >= |s|
  {
    if s == [] then 0 else Utf8Size(s[0]) + Size(s[1..])
  }

  function UpperChar(c: char): char {
    if 'a' <= c <= 'z' then c - 'a' + 'A' else c
  }

  function LowerChar(c: char): char {
    if 'A' <= c <= 'Z' then c - 'A' + 'a' else c
  }

  function Upper(s: string): (r: string)
    ensures |r| == |s|
  {
    if s == [] then [] else [UpperChar(s[0])] + Upper(s[1..])
  }

  function Lower(s: string): (r: string)
    ensures |r| == |s|
    ensures forall i :: 0 <= i < |s| ==> r[i] == LowerChar(s[i])
  {
    if s == [] then [] else [LowerChar(s[0])] + Lower(s[1..])
  }

  predicate StartsWith(s: string, prefix: string) {
    |prefix| <= |s| && s[..|prefix|] == prefix
  }

  lemma {:induction false} TrimStartIs(s: string) returns (n: nat)
    ensures n <= |s| && TrimStart(s) == s[n..]
    ensures forall i :: 0 <= i < n ==> IsSpace(s[i])
    ensures n < |s| ==> !IsSpace(s[n])
  {
    n := 0;
    if s != [] && IsSpace(s[0]) {
      var m := TrimStartIs(s[1..]);
      n := m + 1;
      assert forall i :: 1 <= i < |s| ==> s[i] == s[1..][i - 1];
    }
  }

  lemma {:induction false} TrimEndIs(s: string) returns (n: nat)
    ensures n <= |s| && TrimEnd(s) == s[..n]
    ensures forall i :: n <= i < |s| ==> IsSpace(s[i])
    ensures n > 0 ==> !IsSpace(s[n - 1])
  {
    n := |s|;
    if s != [] && IsSpace(s[|s| - 1]) {
      n := TrimEndIs(s[..|s| - 1]);
    }
  }

  /** Trimming takes away exactly the white space at both ends. */
  lemma {:induction false} TrimExactly(s: string) returns (i: nat, j: nat)
    ensures i <= j <= |s| && Trim(s) == s[i..j]
    ensures forall k :: 0 <= k < i || j <= k < |s| ==> IsSpace(s[k])
    ensures i < j ==> !IsSpace(s[i]) && !IsSpace(s[j - 1])
  {
    i := TrimStartIs(s);
    var n := TrimEndIs(s[i..]);
    j := i + n;
    assert forall k :: i <= k < |s| ==> s[k] == s[i..][k - i];
    assert s[i..][..n] == s[i..j];
  }

  function Characters(s: string): (cs: seq<nat>)
    ensures |cs| == |s| && forall i :: 0 <= i < |s| ==> cs[i] == s[i] as int
  {
    seq(|s|, i requires 0 <= i < |s| => s[i] as int)
  }

  /** The size of a text is the number of bytes of its encoding. */
  lemma {:induction false} SizeExactly(s: string)
    ensures Unicode.AllScalars(Characters(s)) && Size(s) == |Unicode.EncodeText(Characters(s))|
  {
    forall i | 0 <= i < |s|
      ensures Unicode.IsScalar(Characters(s)[i])
    {
    }
    if s != [] {
      SizeExactly(s[1..]);
      assert Characters(s)[1..] == Characters(s[1..]);
    }
  }

  // ----- Printing and parsing -----

  function Armored(body: Bytes): string {
    TICKET_PREFIX + Lower(Base32.Encode(body))
  }

  function Printed(t: Ticket): string {
    Armored(TicketCodec.enc(t))
  }

  /** A decoded body: what follows the ticket in it is ignored. */
  function ParseBody(w: World, body: Bytes): Result<Ticket, Error> {
    match TicketCodec.dec(body)
    case Malformed => Err(BadPostcard)
    case Parsed(t, _) =>
      if t.version != TICKET_SCHEMA_VERSION then Err(UnsupportedVersion(t.version))
      else if TicketError(w, t).Some? then Err(TicketError(w, t).value)
      else Ok(t)
  }

  function Parse(w: World, text: string): Result<Ticket, Error> {
    var s := Trim(text);
    if Size(s) > MAX_TICKET_LEN then Err(TooLong)
    else if !StartsWith(s, TICKET_PREFIX) && !StartsWith(s, LEGACY_TICKET_PREFIX) then Err(BadPrefix)
    else
      match Base32.Decode(Upper(s[5..]))
      case None => Err(BadBase32)
      case Some(body) => ParseBody(w, body)
  }

  /** Lower-case base 32: what a printed ticket consists of. */
  predicate IsPlain(c: char) {
    'a' <= c <= 'z' || '0' <= c <= '9'
  }

  lemma {:induction false} UpperLower(s: string)
    requires forall i :: 0 <= i < |s| ==> Base32.IsLetter(s[i])
    ensures Upper(Lower(s)) == s
    ensures forall i :: 0 <= i < |s| ==> IsPlain(Lower(s)[i])
  {
    if s != [] {
      UpperLower(s[1..]);
      assert Lower(s)[1..] == Lower(s[1..]);
    }
  }

  lemma {:induction false} PlainText(s: string)
    requires forall i :: 0 <= i < |s| ==> IsPlain(s[i])
    ensures Size(s) == |s| && Trim(s) == s
  {
    PlainSize(s);
  }

  lemma {:induction false} PlainSize(s: string)
    requires forall i :: 0 <= i < |s| ==> IsPlain(s[i])
    ensures Size(s) == |s|
  {
    if s != [] {
      PlainSize(s[1..]);
    }
  }

  lemma {:induction false} ArmorIsPlain(body: Bytes)
    ensures var s := Armored(body);
            && |s| == 5 + (8 * |body| + 4) / 5 && s[..5] == TICKET_PREFIX
            && Upper(s[5..]) == Base32.Encode(body)
            && forall i :: 0 <= i < |s| ==> IsPlain(s[i])
  {
    Base32.EncodedLength(body);
    UpperLower(Base32.Encode(body));
    assert Armored(body)[5..] == Lower(Base32.Encode(body));
    assert forall i :: 0 <= i < 5 ==> IsPlain(TICKET_PREFIX[i]);
  }

  lemma {:induction false} ParseArmored(w: World, body: Bytes)
    ensures Parse(w, Armored(body)) == if |Armored(body)| > MAX_TICKET_LEN then Err(TooLong) else ParseBody(w, body)
  {
    ArmorIsPlain(body);
    PlainText(Armored(body));
    Base32.DecodeEncode(body);
  }

  /** A sound ticket comes back from its text, even with bytes appended to its
      body, exactly if the text is no longer than a ticket may be. */
  lemma {:induction false} PrintParse(w: World, t: Ticket, appended: Bytes)
    requires TicketCodec.ok(t) && t.version == TICKET_SCHEMA_VERSION && TicketError(w, t).None?
    ensures var text := Armored(TicketCodec.enc(t) + appended);
            Parse(w, text) == Ok(t) <==> |text| <= MAX_TICKET_LEN
  {
    TicketIsLawful();
    assert TicketCodec.dec(TicketCodec.enc(t) + appended) == Parsed(t, appended);
    ParseArmored(w, TicketCodec.enc(t) + appended);
  }

  lemma {:induction false} ParsedIsSound(w: World, body: Bytes)
    requires ParseBody(w, body).Ok?
    ensures var t := ParseBody(w, body).value;
            && TicketCodec.ok(t) && t.version == TICKET_SCHEMA_VERSION && TicketError(w, t).None?
            && |TicketCodec.enc(t)| <= |body|
  {
    TicketIsLawful();
    assert TicketCodec.dec(body).Parsed?;
  }

  lemma {:induction false} PrintParsePlain(w: World, t: Ticket)
    requires TicketCodec.ok(t) && t.version == TICKET_SCHEMA_VERSION && TicketError(w, t).None?
    ensures Parse(w, Printed(t)) == Ok(t) <==> |Printed(t)| <= MAX_TICKET_LEN
  {
    assert TicketCodec.enc(t) + [] == TicketCodec.enc(t);
    PrintParse(w, t, []);
  }

  lemma {:induction false} ParsedText(w: World, text: string) returns (body: Bytes)
    requires Parse(w, text).Ok?
    ensures ParseBody(w, body) == Parse(w, text)
    ensures 5 + (8 * |body| + 4) / 5 == |Trim(text)| && Size(Trim(text)) <= MAX_TICKET_LEN
  {
    var s := Trim(text);
    body := Base32.Decode(Upper(s[5..])).value;
    Base32.EncodeDecode(Upper(s[5..]));
    Base32.EncodedLength(body);
  }

  /** Whatever text is accepted: it is no larger than a ticket may be, begins with
      a prefix, and means a ticket of this version that is sound. */
  lemma {:induction false} AcceptedExactly(w: World, text: string)
    requires Parse(w, text).Ok?
    ensures var s, t := Trim(text), Parse(w, text).value;
            && Size(s) <= 8192 && |s| >= 5 && (s[..5] == "drop2" || s[..5] == "drop1")
            && t.version == 3 && TicketError(w, t).None?
            && Base32.Decode(Upper(s[5..])).Some?
            && TicketCodec.dec(Base32.Decode(Upper(s[5..])).value).Parsed?
            && t == TicketCodec.dec(Base32.Decode(Upper(s[5..])).value).value
  {
  }

  /** And why other texts are refused, first things first. */
  lemma {:induction false} RefusedExactly(w: World, text: string)
    ensures var s := Trim(text);
            && (Size(s) > 8192 ==> Parse(w, text) == Err(TooLong))
            && (Size(s) <= 8192 && (|s| < 5 || (s[..5] != "drop2" && s[..5] != "drop1")) ==>
                  Parse(w, text) == Err(BadPrefix))
            && (Size(s) <= 8192 && |s| >= 5 && (s[..5] == "drop2" || s[..5] == "drop1") ==>
                  match Base32.Decode(Upper(s[5..]))
                  case None => Parse(w, text) == Err(BadBase32)
                  case Some(body) =>
                    match TicketCodec.dec(body)
                    case Malformed => Parse(w, text) == Err(BadPostcard)
                    case Parsed(t, _) => t.version != 3 ==> Parse(w, text) == Err(UnsupportedVersion(t.version)))
  {
  }

  /** Printing what was parsed gives a text that parses to the same. */
  lemma {:induction false} ParsePrintParse(w: World, text: string)
    requires Parse(w, text).Ok?
    ensures Parse(w, Printed(Parse(w, text).value)) == Parse(w, text)
    ensures |Printed(Parse(w, text).value)| <= |Trim(text)|
  {
    var body := ParsedText(w, text);
    ParsedIsSound(w, body);
    ArmorIsPlain(TicketCodec.enc(Parse(w, text).value));
    PrintParsePlain(w, Parse(w, text).value);
  }

  /** Blanks, tabs and line ends. */
  predicate IsBlank(c: char) {
    c == ' ' || c == '\t' || c == '\n' || c == '\r'
  }

  lemma {:induction false} TrimStartBlanks(before: string, s: string)
    requires (forall i :: 0 <= i < |before| ==> IsBlank(before[i])) && s != [] && !IsSpace(s[0])
    ensures TrimStart(before + s) == s
  {
    if before == [] {
      assert before + s == s;
    } else {
      TrimStartBlanks(before[1..], s);
      assert (before + s)[1..] == before[1..] + s;
    }
  }

  lemma {:induction false} TrimEndBlanks(s: string, behind: string)
    requires (forall i :: 0 <= i < |behind| ==> IsBlank(behind[i])) && s != [] && !IsSpace(s[|s| - 1])
    ensures TrimEnd(s + behind) == s
  {
    if behind == [] {
      assert s + behind == s;
    } else {
      var rest := behind[..|behind| - 1];
      TrimEndBlanks(s, rest);
      assert (s + behind)[..|s + behind| - 1] == s + rest;
    }
  }

  lemma {:induction false} TrimBlanks(before: string, s: string, behind: string)
    requires forall i :: 0 <= i < |before| ==> IsBlank(before[i])
    requires forall i :: 0 <= i < |behind| ==> IsBlank(behind[i])
    requires s != [] && forall i :: 0 <= i < |s| ==> IsPlain(s[i])
    ensures Trim(before + s + behind) == s
  {
    assert before + s + behind == before + (s + behind);
    assert (s + behind)[0] == s[0];
    TrimStartBlanks(before, s + behind);
    TrimEndBlanks(s, behind);
  }

  lemma {:induction false} ParsesTrimmed(w: World, text: string, s: string)
    requires Trim(text) == s && Trim(s) == s
    ensures Parse(w, text) == Parse(w, s)
  {
  }

  /** A printed ticket may be pasted with blanks and line ends around it. */
  lemma {:induction false} BlanksAround(w: World, before: string, t: Ticket, behind: string)
    requires forall i :: 0 <= i < |before| ==> IsBlank(before[i])
    requires forall i :: 0 <= i < |behind| ==> IsBlank(behind[i])
    ensures Parse(w, before + Printed(t) + behind) == Parse(w, Printed(t))
  {
    ArmorIsPlain(TicketCodec.enc(t));
    PlainText(Printed(t));
    TrimBlanks(before, Printed(t), behind);
    ParsesTrimmed(w, before + Printed(t) + behind, Printed(t));
  }

  // ----- Links -----

  const LINK_SCHEME: string := "iroh-drop"

  function AppLink(ticket: string): string {
    LINK_SCHEME + "://receive/" + ticket
  }

  /** Where `pattern` first occurs. */
  function Find(s: string, pattern: string): Option<nat> {
    if StartsWith(s, pattern) then Some(0)
    else if s == [] then None
    else
      match Find(s[1..], pattern)
      case None => None
      case Some(i) => Some(i + 1)
  }

  function PlainLength(s: string): (n: nat)
    ensures n <= |s|
  {
    if s == [] || !IsPlain(s[0]) then 0 else 1 + PlainLength(s[1..])
  }

  function Earlier(i: Option<nat>, j: Option<nat>): Option<nat> {
    if i.None? then j else if j.None? then i else Some(Min(i.value, j.value))
  }

  /** The ticket in whatever was pasted: from the first prefix on, as far as it
      is lower-case letters and digits, if that is long enough. */
  function TicketFromText(input: string): Option<string> {
    match Earlier(Find(input, TICKET_PREFIX), Find(input, LEGACY_TICKET_PREFIX))
    case None => None
    case Some(start) =>
      if start > |input| then None
      else
        var candidate := input[start..][..PlainLength(input[start..])];
        if |candidate| > 32 then Some(candidate) else None
  }

  lemma {:induction false} FindExactly(s: string, pattern: string)
    requires pattern != []
    ensures var at := Find(s, pattern);
            && (at.Some? ==> at.value <= |s| && StartsWith(s[at.value..], pattern))
            && (forall k :: 0 <= k <= |s| && (at.None? || k < at.value) ==> !StartsWith(s[k..], pattern))
  {
    if StartsWith(s, pattern) {
      assert s[0..] == s;
    } else if s != [] {
      FindExactly(s[1..], pattern);
      forall k | 0 <= k <= |s|
        ensures s[k..] == if k == 0 then s else s[1..][k - 1..]
      {
      }
    }
  }

  lemma {:induction false} PlainLengthExactly(s: string)
    ensures var n := PlainLength(s);
            (forall i :: 0 <= i < n ==> IsPlain(s[i])) && (n < |s| ==> !IsPlain(s[n]))
  {
    if s != [] && IsPlain(s[0]) {
      PlainLengthExactly(s[1..]);
      assert forall i :: 1 <= i < |s| ==> s[i] == s[1..][i - 1];
    }
  }

  /** The first prefix of either kind. */
  lemma {:induction false} FirstExactly(input: string)
    requires Earlier(Find(input, TICKET_PREFIX), Find(input, LEGACY_TICKET_PREFIX)).Some?
    ensures var at := Earlier(Find(input, TICKET_PREFIX), Find(input, LEGACY_TICKET_PREFIX)).value;
            && at <= |input| && (StartsWith(input[at..], "drop2") || StartsWith(input[at..], "drop1"))
            && forall k :: 0 <= k < at ==> !StartsWith(input[k..], "drop2") && !StartsWith(input[k..], "drop1")
  {
    FindExactly(input, TICKET_PREFIX);
    FindExactly(input, LEGACY_TICKET_PREFIX);
  }

  lemma {:induction false} CandidateExactly(input: string, at: nat)
    requires at <= |input|
    ensures var n := PlainLength(input[at..]);
            && at + n <= |input| && input[at..][..n] == input[at..at + n]
            && (forall i :: at <= i < at + n ==> 'a' <= input[i] <= 'z' || '0' <= input[i] <= '9')
            && (at + n < |input| ==> !('a' <= input[at + n] <= 'z' || '0' <= input[at + n] <= '9'))
  {
    PlainLengthExactly(input[at..]);
    assert forall i :: at <= i < |input| ==> input[i] == input[at..][i - at];
  }

  /** What is taken from a text begins with the first prefix in it, goes on as far
      as there are lower-case letters and digits, and is longer than 32. */
  lemma {:induction false} ExtractedExactly(input: string) returns (at: nat, n: nat)
    requires TicketFromText(input).Some?
    ensures at + n <= |input| && n > 32 && TicketFromText(input).value == input[at..at + n]
    ensures StartsWith(input[at..], "drop2") || StartsWith(input[at..], "drop1")
    ensures forall k :: 0 <= k < at ==> !StartsWith(input[k..], "drop2") && !StartsWith(input[k..], "drop1")
    ensures forall i :: at <= i < at + n ==> 'a' <= input[i] <= 'z' || '0' <= input[i] <= '9'
    ensures at + n < |input| ==> !('a' <= input[at + n] <= 'z' || '0' <= input[at + n] <= '9')
  {
    FirstExactly(input);
    at := Earlier(Find(input, TICKET_PREFIX), Find(input, LEGACY_TICKET_PREFIX)).value;
    n := PlainLength(input[at..]);
    CandidateExactly(input, at);
  }

  /** What the command line makes of a pasted ticket or link. */
  function ReadTicket(w: World, arg: string): Result<Ticket, Error> {
    var text := Trim(arg);
    var found := TicketFromText(text);
    Parse(w, if found.Some? then found.value else text)
  }

  /** No ticket prefix begins within the first `n` characters. */
  ghost predicate NoPrefixWithin(s: string, n: nat) {
    n == 0 || s == [] || (!StartsWith(s, TICKET_PREFIX) && !StartsWith(s, LEGACY_TICKET_PREFIX) &&
        NoPrefixWithin(s[1..], n - 1))
  }

  lemma {:induction false} FindsFirst(s: string, n: nat)
    requires n <= |s| && NoPrefixWithin(s, n) && StartsWith(s[n..], TICKET_PREFIX)
    ensures Earlier(Find(s, TICKET_PREFIX), Find(s, LEGACY_TICKET_PREFIX)) == Some(n)
  {
    if n > 0 {
      assert s[1..][n - 1..] == s[n..];
      FindsFirst(s[1..], n - 1);
    } else {
      assert s[0..] == s;
      assert s[4] == '2';
    }
  }

  lemma {:induction false} AllPlain(s: string, after: string)
    requires forall i :: 0 <= i < |s| ==> IsPlain(s[i])
    requires after == [] || !IsPlain(after[0])
    ensures PlainLength(s + after) == |s|
  {
    if s != [] {
      assert (s + after)[1..] == s[1..] + after;
      AllPlain(s[1..], after);
    } else {
      assert s + after == after;
    }
  }

  /** A printed ticket is found in any text that has no other prefix before it
      and no letter or digit right after it. */
  lemma {:induction false} TicketIsFound(before: string, body: Bytes, after: string)
    requires |body| >= 32
    requires NoPrefixWithin(before + Armored(body) + after, |before|)
    requires after == [] || !IsPlain(after[0])
    ensures TicketFromText(before + Armored(body) + after) == Some(Armored(body))
  {
    var ticket := Armored(body);
    ArmorIsPlain(body);
    AfterFront(before, ticket, after);
    FindsFirst(before + ticket + after, |before|);
    AllPlain(ticket, after);
  }

  lemma {:induction false} AfterFront(before: string, ticket: string, after: string)
    requires |ticket| >= 5 && ticket[..5] == TICKET_PREFIX
    ensures (before + ticket + after)[|before|..] == ticket + after
    ensures (ticket + after)[..|ticket|] == ticket && StartsWith(ticket + after, TICKET_PREFIX)
  {
    assert (ticket + after)[..5] == ticket[..5];
  }

  lemma {:induction false} TicketIsLong(t: Ticket)
    requires TicketCodec.ok(t)
    ensures |TicketCodec.enc(t)| >= 32
  {
    assert TicketCodec.enc(t) == TicketFields.enc(FromTicket(t));
  }

  lemma {:induction false} NoPrefixIf(s: string, n: nat)
    requires forall i :: 0 <= i < n && i + 4 < |s| ==> s[i] != 'd' || (s[i + 4] != '1' && s[i + 4] != '2')
    ensures NoPrefixWithin(s, n)
  {
    if n > 0 && s != [] {
      assert forall i :: 0 <= i < |s[1..]| ==> s[1..][i] == s[i + 1];
      NoPrefixIf(s[1..], n - 1);
      PrefixLetters(s, TICKET_PREFIX);
      PrefixLetters(s, LEGACY_TICKET_PREFIX);
    }
  }

  lemma {:induction false} PrefixLetters(s: string, prefix: string)
    requires |prefix| == 5
    ensures StartsWith(s, prefix) ==> |s| >= 5 && s[0] == prefix[0] && s[4] == prefix[4]
  {
  }

  const LINK_START: string := LINK_SCHEME + "://receive/"

  lemma {:induction false} NothingEarlierInLink(ticket: string)
    ensures AppLink(ticket) == LINK_START + ticket && NoPrefixWithin(AppLink(ticket), |LINK_START|)
  {
    var link := AppLink(ticket);
    assert |LINK_START| == 20 && LINK_START == "iroh-drop://receive/";
    assert link == LINK_START + ticket;
    assert forall i :: 0 <= i < 20 ==> link[i] == LINK_START[i];
    assert forall i :: 0 <= i < 20 && i != 5 ==> LINK_START[i] != 'd';
    assert LINK_START[9] == ':';
    NoPrefixIf(link, 20);
  }

  lemma {:induction false} LinkIsTrimmed(body: Bytes)
    ensures Trim(AppLink(Armored(body))) == AppLink(Armored(body))
  {
    ArmorIsPlain(body);
    NothingEarlierInLink(Armored(body));
    var link := AppLink(Armored(body));
    assert link[0] == LINK_START[0] == 'i';
    assert link[|link| - 1] == Armored(body)[|Armored(body)| - 1];
    NothingToTrim(link);
  }

  lemma {:induction false} NothingToTrim(s: string)
    requires s != [] && IsPlain(s[0]) && IsPlain(s[|s| - 1])
    ensures Trim(s) == s
  {
  }

  lemma {:induction false} LinkIsFound(body: Bytes)
    requires |body| >= 32
    ensures TicketFromText(AppLink(Armored(body))) == Some(Armored(body))
  {
    NothingEarlierInLink(Armored(body));
    assert LINK_START + Armored(body) + [] == AppLink(Armored(body));
    TicketIsFound(LINK_START, body, []);
  }

  /** The link made for a ticket gives the ticket back. */
  lemma {:induction false} LinkRoundTrip(w: World, t: Ticket)
    requires TicketCodec.ok(t) && t.version == TICKET_SCHEMA_VERSION && TicketError(w, t).None?
    requires |Printed(t)| <= MAX_TICKET_LEN
    ensures TicketFromText(AppLink(Printed(t))) == Some(Printed(t))
    ensures ReadTicket(w, AppLink(Printed(t))) == Ok(t)
  {
    TicketIsLong(t);
    LinkIsFound(TicketCodec.enc(t));
    LinkIsTrimmed(TicketCodec.enc(t));
    PrintParsePlain(w, t);
  }
}
