/** Device configuration of `hwvx/config.py`: typed settings, their wire strings, and validation. */
module Config {
  import opened Wrappers
  import opened Text

  datatype Field =
    | Username | DeviceName | MacAddress | IpAddress | PortNumber | Protocol | WorkMode | RemoteIp | RemotePort
    | GatewayIp | SubnetMask | Dhcp
    | BaudRate | Parity | DataBits | DtrMode | Rts
    | ConnectionMode | ConnectionTimeout | Reconnect | MaxLength | MaxDelay

  /** Every field, in declaration order. */
  const FIELDS: seq<Field> := [
    Username, DeviceName, MacAddress, IpAddress, PortNumber, Protocol, WorkMode, RemoteIp, RemotePort,
    GatewayIp, SubnetMask, Dhcp,
    BaudRate, Parity, DataBits, DtrMode, Rts,
    ConnectionMode, ConnectionTimeout, Reconnect, MaxLength, MaxDelay]

  /** The type of a setting; `Choice(n)` is an enumeration with the codes 0 to n - 1. */
  datatype Kind = FreeText | Address | Number | Choice(codes: nat)

  function KindOf(f: Field): Kind {
    match f
    case Username | DeviceName | MacAddress => FreeText
    case IpAddress | RemoteIp | GatewayIp | SubnetMask => Address
    case PortNumber | RemotePort | ConnectionTimeout | Reconnect | MaxLength | MaxDelay => Number
    case Protocol | WorkMode | Dhcp | DataBits | DtrMode | Rts | ConnectionMode => Choice(2)
    case BaudRate => Choice(8)
    case Parity => Choice(5)
  }

  datatype Value = Str(text: string) | Ip(ip: Ipv4) | Int(n: int) | Code(code: nat)

  predicate HasKind(v: Value, k: Kind) {
    match k
    case FreeText => v.Str?
    case Address => v.Ip?
    case Number => v.Int?
    case Choice(codes) => v.Code? && v.code < codes
  }

  function Default(f: Field): Value {
    match f
    case Username | DeviceName | MacAddress => Str("")
    case IpAddress | RemoteIp | GatewayIp => Ip(Ipv4(0, 0, 0, 0))
    case SubnetMask => Ip(Ipv4(255, 255, 255, 0))
    case PortNumber | RemotePort | ConnectionTimeout | Reconnect | MaxLength | MaxDelay => Int(0)
    case Protocol | DataBits => Code(1)
    case BaudRate => Code(3)
    case WorkMode | Dhcp | Parity | DtrMode | Rts | ConnectionMode => Code(0)
  }

  type Settings = map<Field, Value>

  type Wire = map<Field, string>

  /** A configuration: every field has a value of its kind. */
  predicate IsConfig(c: Settings) {
    forall f :: f in FIELDS ==> f in c && HasKind(c[f], KindOf(f))
  }

  lemma EveryField(f: Field)
    ensures f in FIELDS
  {
    var i: nat := match f
      case Username => 0 case DeviceName => 1 case MacAddress => 2 case IpAddress => 3 case PortNumber => 4
      case Protocol => 5 case WorkMode => 6 case RemoteIp => 7 case RemotePort => 8 case GatewayIp => 9
      case SubnetMask => 10 case Dhcp => 11 case BaudRate => 12 case Parity => 13 case DataBits => 14
      case DtrMode => 15 case Rts => 16 case ConnectionMode => 17 case ConnectionTimeout => 18
      case Reconnect => 19 case MaxLength => 20 case MaxDelay => 21;
    assert FIELDS[i] == f;
  }

  // ---- strings and values ----

  function Parse(k: Kind, text: string): Option<Value> {
    match k
    case FreeText => Some(Str(text))
    case Address =>
      var ip := ParseIp(text);
      if ip.None? then None else Some(Ip(ip.value))
    case Number =>
      var n := ParseInt(text);
      if n.None? then None else Some(Int(n.value))
    case Choice(codes) =>
      var n := ParseInt(text);
      if n.None? || !(0 <= n.value < codes) then None else Some(Code(n.value))
  }

  function Dump(v: Value): string {
    match v
    case Str(text) => text
    case Ip(ip) => PrintIp(ip)
    case Int(n) => PrintInt(n)
    case Code(code) => PrintInt(code)
  }

  lemma DumpParse(v: Value, k: Kind)
    requires HasKind(v, k)
    ensures Parse(k, Dump(v)) == Some(v)
  {
    hide PrintIp, PrintInt, ParseIp, ParseInt;
    match v
    case Str(text) =>
    case Ip(ip) => PrintParseIp(ip);
    case Int(n) => PrintParseInt(n);
    case Code(code) => PrintParseInt(code);
  }

  lemma ParsedHasKind(k: Kind, text: string)
    ensures Parse(k, text).Some? ==> HasKind(Parse(k, text).value, k)
  {}

  // ---- reading ----

  predicate Readable(raw: Wire, f: Field) {
    f in raw ==> Parse(KindOf(f), raw[f]).Some?
  }

  /** The present fields that cannot be parsed, in declaration order, among the first `n`. */
  function Unparseable(raw: Wire, n: nat): seq<Field>
    requires n <= |FIELDS|
  {
    if n == 0 then []
    else Unparseable(raw, n - 1) + if Readable(raw, FIELDS[n - 1]) then [] else [FIELDS[n - 1]]
  }

  /** What a field is read as: its parsed string, or its default if it is missing. */
  function ReadField(raw: Wire, f: Field): Value {
    if f in raw && Readable(raw, f) then Parse(KindOf(f), raw[f]).value else Default(f)
  }

  function ReadAll(raw: Wire): Settings {
    map f | f in FIELDS :: ReadField(raw, f)
  }

  function Reading(raw: Wire): Result<Settings, seq<Field>> {
    var bad := Unparseable(raw, |FIELDS|);
    if bad == [] then Ok(ReadAll(raw)) else Err(bad)
  }

  method FromWire(raw: Wire) returns (result: Result<Settings, seq<Field>>)
    ensures result == Reading(raw)
  {
    hide Parse, KindOf, Default, FIELDS;
    var kwargs: Settings := map[];
    var errors: seq<Field> := [];
    for i := 0 to |FIELDS|
      invariant errors == Unparseable(raw, i)
      invariant forall f: Field :: f in kwargs <==> f in FIELDS[..i] && f in raw && Readable(raw, f)
      invariant forall f: Field :: f in kwargs ==> kwargs[f] == ReadField(raw, f)
    {
      var f := FIELDS[i];
      assert FIELDS[..i + 1] == FIELDS[..i] + [f];
      if f in raw {
        var v := Parse(KindOf(f), raw[f]);
        if v.None? {
          errors := errors + [f];
        } else {
          kwargs := kwargs[f := v.value];
        }
      }
    }
    if errors != [] {
      return Err(errors);
    }
    UnparseableExact(raw, |FIELDS|);
    assert FIELDS[..|FIELDS|] == FIELDS;
    var config: Settings := map f | f in FIELDS :: if f in kwargs then kwargs[f] else Default(f);
    forall f | f in FIELDS
      ensures config[f] == ReadField(raw, f)
    {
      assert f !in Unparseable(raw, |FIELDS|);
    }
    assert config == ReadAll(raw);
    result := Ok(config);
  }

  lemma {:induction false} UnparseableExact(raw: Wire, n: nat)
    requires n <= |FIELDS|
    ensures forall f: Field :: f in Unparseable(raw, n) <==> f in FIELDS[..n] && !Readable(raw, f)
  {
    hide Readable, FIELDS;
    if n > 0 {
      UnparseableExact(raw, n - 1);
      assert FIELDS[..n] == FIELDS[..n - 1] + [FIELDS[n - 1]];
    }
  }

  /** Only a present field can be unreadable, and only for its string. */
  lemma ReadableIs(raw: Wire, f: Field)
    ensures Readable(raw, f) <==> f !in raw || Parse(KindOf(f), raw[f]) != None
  {
    hide Parse, KindOf;
  }

  /** Reading fails iff some present field is unparseable, and then names exactly those fields. */
  lemma ReadingExact(raw: Wire)
    ensures Reading(raw).Ok? <==> forall f: Field :: Readable(raw, f)
    ensures Reading(raw).Err? ==> forall f: Field :: f in Reading(raw).error <==> !Readable(raw, f)
    ensures Reading(raw).Ok? ==> IsConfig(Reading(raw).value)
  {
    hide Readable, FIELDS, KindOf, Default;
    UnparseableExact(raw, |FIELDS|);
    assert FIELDS[..|FIELDS|] == FIELDS;
    forall f: Field
      ensures f in FIELDS && HasKind(ReadField(raw, f), KindOf(f))
    {
      EveryField(f);
      ReadKind(raw, f);
    }
    var bad := Unparseable(raw, |FIELDS|);
    if bad != [] {
      assert bad[0] in bad;
    }
  }

  lemma ReadKind(raw: Wire, f: Field)
    ensures HasKind(ReadField(raw, f), KindOf(f))
  {
    if f in raw {
      ParsedHasKind(KindOf(f), raw[f]);
    }
  }

  /** How each field is read: its text as it is, an address, an integer, or one of so many codes. */
  lemma FieldReading(f: Field, text: string, v: Value)
    ensures Parse(KindOf(f), text) == Some(v) <==>
      match f
      case Username | DeviceName | MacAddress => v == Str(text)
      case IpAddress | RemoteIp | GatewayIp | SubnetMask => v.Ip? && text == PrintIp(v.ip)
      case PortNumber | RemotePort | ConnectionTimeout | Reconnect | MaxLength | MaxDelay =>
        v.Int? && ParseInt(text) == Some(v.n)
      case Protocol | WorkMode | Dhcp | DataBits | DtrMode | Rts | ConnectionMode =>
        v.Code? && ParseInt(text) == Some(v.code) && v.code <= 1
      case BaudRate => v.Code? && ParseInt(text) == Some(v.code) && v.code <= 7
      case Parity => v.Code? && ParseInt(text) == Some(v.code) && v.code <= 4
  {
    hide PrintIp, ParseIp, ParseInt;
    if v.Ip? {
      ParseIpExact(text, v.ip);
    }
    var ip := ParseIp(text);
    if ip.Some? {
      ParseIpExact(text, ip.value);
    }
  }

  /** What a field that the module does not name is read as. */
  lemma DefaultsAre(raw: Wire, f: Field)
    requires Reading(raw).Ok? && f !in raw
    ensures f in Reading(raw).value && Reading(raw).value[f] ==
      match f
      case Username | DeviceName | MacAddress => Str("")
      case IpAddress | RemoteIp | GatewayIp => Ip(Ipv4(0, 0, 0, 0))
      case SubnetMask => Ip(Ipv4(255, 255, 255, 0))
      case PortNumber | RemotePort | ConnectionTimeout | Reconnect | MaxLength | MaxDelay => Int(0)
      case Protocol | DataBits => Code(1)
      case BaudRate => Code(3)
      case WorkMode | Dhcp | Parity | DtrMode | Rts | ConnectionMode => Code(0)
  {
    hide Reading, FIELDS;
    EveryField(f);
    ReadingIs(raw);
  }

  /** A field that the module names is read as what its string says. */
  lemma NamedIsRead(raw: Wire, f: Field)
    requires Reading(raw).Ok? && f in raw
    ensures f in Reading(raw).value && Parse(KindOf(f), raw[f]) == Some(Reading(raw).value[f])
  {
    hide Reading, FIELDS, Parse, KindOf;
    EveryField(f);
    ReadingExact(raw);
    assert Readable(raw, f);
    ReadingIs(raw);
  }

  /**
   * A field that is neither text nor an address is refused, and named, if its string has a
   * character that no number has, or no digit.
   */
  lemma NumberRefused(raw: Wire, f: Field)
    requires f in raw && !LooksLikeNumber(raw[f])
    requires f != Username && f != DeviceName && f != MacAddress
    requires f != IpAddress && f != RemoteIp && f != GatewayIp && f != SubnetMask
    ensures Reading(raw).Err? && f in Reading(raw).error
  {
    hide Reading, LooksLikeNumber, ParseInt, Parse, KindOf;
    if ParseInt(raw[f]).Some? {
      NumberCharacters(raw[f]);
    }
    NumericField(f, raw[f]);
    ReadableIs(raw, f);
    hide Readable;
    ReadingExact(raw);
  }

  lemma NumericField(f: Field, text: string)
    requires f != Username && f != DeviceName && f != MacAddress
    requires f != IpAddress && f != RemoteIp && f != GatewayIp && f != SubnetMask
    ensures ParseInt(text) == None ==> Parse(KindOf(f), text) == None
  {
    hide ParseInt;
  }

  // ---- validation and writing ----

  datatype Problem =
    | HasDelimiter(field: Field)
    | NotAscii(field: Field)
    | BadPort(field: Field)
    | Negative(field: Field)

  const PORT_MAX: int := 65535
  const PORTS: seq<Field> := [PortNumber, RemotePort]
  const COUNTERS: seq<Field> := [ConnectionTimeout, Reconnect, MaxLength, MaxDelay]

  /** The problem is one that the configuration really has. */
  predicate Afflicts(p: Problem, c: Settings) {
    p.field in c && match p
    case HasDelimiter(f) => c[f].Str? && '|' in c[f].text
    case NotAscii(f) => c[f].Str? && !IsAscii(c[f].text)
    case BadPort(f) => f in PORTS && c[f].Int? && !(1 <= c[f].n <= PORT_MAX)
    case Negative(f) => f in COUNTERS && c[f].Int? && c[f].n < 0
  }

  ghost predicate IsValid(c: Settings) {
    forall p: Problem :: !Afflicts(p, c)
  }

  /** The four kinds of problem. */
  lemma ProblemsAre(c: Settings, f: Field)
    requires f in c
    ensures Afflicts(HasDelimiter(f), c) <==> c[f].Str? && '|' in c[f].text
    ensures Afflicts(NotAscii(f), c) <==> c[f].Str? && !(forall x :: x in c[f].text ==> x as int < 128)
    ensures Afflicts(BadPort(f), c)
        <==> (f == PortNumber || f == RemotePort) && c[f].Int? && !(1 <= c[f].n <= 65535)
    ensures Afflicts(Negative(f), c)
        <==> && (f == ConnectionTimeout || f == Reconnect || f == MaxLength || f == MaxDelay)
             && c[f].Int? && c[f].n < 0
  {
    if c[f].Str? {
      AsciiIs(c[f].text);
    }
    hide IsAscii;
  }

  /** What validity amounts to. */
  lemma ValidMeans(c: Settings)
    requires IsConfig(c)
    ensures IsValid(c) <==>
      && (forall f: Field :: f in c && c[f].Str? ==> forall x :: x in c[f].text ==> x != '|' && x as int < 128)
      && (forall f: Field :: f == PortNumber || f == RemotePort ==> f in c && c[f].Int? && 1 <= c[f].n <= 65535)
      && (forall f: Field :: f == ConnectionTimeout || f == Reconnect || f == MaxLength || f == MaxDelay ==>
            f in c && c[f].Int? && 0 <= c[f].n)
  {
    hide FIELDS, Afflicts, KindOf;
    forall f: Field
      ensures f in c
      ensures Afflicts(HasDelimiter(f), c) <==> c[f].Str? && '|' in c[f].text
      ensures Afflicts(NotAscii(f), c) <==> c[f].Str? && !(forall x :: x in c[f].text ==> x as int < 128)
      ensures f == PortNumber || f == RemotePort || f in COUNTERS ==> c[f].Int?
      ensures Afflicts(BadPort(f), c) <==> (f == PortNumber || f == RemotePort) && !(1 <= c[f].n <= 65535)
      ensures Afflicts(Negative(f), c)
          <==> (f == ConnectionTimeout || f == Reconnect || f == MaxLength || f == MaxDelay) && c[f].n < 0
    {
      EveryField(f);
      Numbers(f);
      ProblemsAre(c, f);
    }
    if !IsValid(c) {
      var p: Problem :| Afflicts(p, c);
      assert p == HasDelimiter(p.field) || p == NotAscii(p.field) || p == BadPort(p.field) || p == Negative(p.field);
    }
  }

  lemma Numbers(f: Field)
    ensures f == PortNumber || f == RemotePort || f in COUNTERS ==> KindOf(f) == Number
    ensures f in COUNTERS <==> f == ConnectionTimeout || f == Reconnect || f == MaxLength || f == MaxDelay
  {}

  /** Every problem of the configuration is reported, and nothing else. */
  method Validate(c: Settings) returns (errors: seq<Problem>)
    requires IsConfig(c)
    ensures forall p: Problem :: p in errors <==> Afflicts(p, c)
    ensures errors == [] <==> IsValid(c)
  {
    hide KindOf, FIELDS, IsAscii, PORTS, COUNTERS;
    forall f: Field
      ensures f in FIELDS && f in c && HasKind(c[f], KindOf(f))
    {
      EveryField(f);
    }
    errors := [];
    for i := 0 to |FIELDS|
      invariant forall p: Problem ::
                  p in errors
                  <==> (p.HasDelimiter? || p.NotAscii?) && p.field in FIELDS[..i] && Afflicts(p, c)
    {
      var f := FIELDS[i];
      assert FIELDS[..i + 1] == FIELDS[..i] + [f];
      if c[f].Str? {
        if '|' in c[f].text {
          errors := errors + [HasDelimiter(f)];
        }
        if !IsAscii(c[f].text) {
          errors := errors + [NotAscii(f)];
        }
      }
    }
    assert FIELDS[..|FIELDS|] == FIELDS;
    for i := 0 to |PORTS|
      invariant forall p: Problem ::
                  p in errors
                  <==> (p.HasDelimiter? || p.NotAscii? || (p.BadPort? && p.field in PORTS[..i])) && Afflicts(p, c)
    {
      var f := PORTS[i];
      assert PORTS[..i + 1] == PORTS[..i] + [f];
      if c[f].Int? && !(1 <= c[f].n <= PORT_MAX) {
        errors := errors + [BadPort(f)];
      }
    }
    assert PORTS[..|PORTS|] == PORTS;
    for i := 0 to |COUNTERS|
      invariant forall p: Problem :: p in errors <==> (!p.Negative? || p.field in COUNTERS[..i]) && Afflicts(p, c)
    {
      var f := COUNTERS[i];
      assert COUNTERS[..i + 1] == COUNTERS[..i] + [f];
      if c[f].Int? && c[f].n < 0 {
        errors := errors + [Negative(f)];
      }
    }
    assert COUNTERS[..|COUNTERS|] == COUNTERS;
    if errors != [] {
      assert errors[0] in errors;
    }
  }

  function WireOf(c: Settings): Wire
    requires IsConfig(c)
  {
    map f | f in FIELDS :: Dump(c[f])
  }

  /** Each value's string: a text as it is, the others printed. */
  lemma WireIs(c: Settings, f: Field)
    requires IsConfig(c)
    ensures f in c && f in WireOf(c) && WireOf(c)[f] ==
      match c[f]
      case Str(text) => text
      case Ip(ip) => PrintIp(ip)
      case Int(n) => PrintInt(n)
      case Code(code) => PrintInt(code)
  {
    EveryField(f);
    hide FIELDS, PrintIp, PrintInt;
  }

  method ToWire(c: Settings) returns (result: Result<Wire, seq<Problem>>)
    requires IsConfig(c)
    ensures if IsValid(c) then result == Ok(WireOf(c))
            else result.Err? && forall p: Problem :: p in result.error <==> Afflicts(p, c)
  {
    var errors := Validate(c);
    if errors != [] {
      return Err(errors);
    }
    return Ok(WireOf(c));
  }

  /** A configuration survives the way to the wire and back. */
  lemma WireRoundTrip(c: Settings)
    requires IsConfig(c)
    ensures Reading(WireOf(c)) == Ok(c)
  {
    hide Readable, FIELDS, KindOf, Default, Dump, Parse, Reading, HasKind;
    var raw := WireOf(c);
    forall f: Field
      ensures f in FIELDS && f in c && Readable(raw, f) && ReadField(raw, f) == c[f]
    {
      EveryField(f);
      ReadBack(c, f);
    }
    ReadingExact(raw);
    assert ReadAll(raw) == c;
    ReadingIs(raw);
  }

  lemma ReadBack(c: Settings, f: Field)
    requires IsConfig(c) && f in FIELDS
    ensures Readable(WireOf(c), f) && ReadField(WireOf(c), f) == c[f]
  {
    hide FIELDS, KindOf, Default, Dump, Parse, HasKind;
    DumpParse(c[f], KindOf(f));
  }

  lemma ReadingIs(raw: Wire)
    ensures Reading(raw).Ok? ==> Reading(raw).value == ReadAll(raw)
  {
    hide FIELDS, Readable, ReadField;
  }

  /** The strings of a valid configuration are free of the protocol's delimiter. */
  lemma ValidIsFramed(c: Settings, f: Field)
    requires IsConfig(c) && IsValid(c)
    ensures f in WireOf(c) && '|' !in WireOf(c)[f]
  {
    hide FIELDS, KindOf;
    EveryField(f);
    assert !Afflicts(HasDelimiter(f), c);
    match c[f]
    case Str(text) =>
    case Ip(ip) => NumericText(ip);
    case Int(n) => NumberText(n);
    case Code(code) => NumberText(code);
  }

  lemma NumberText(n: int)
    ensures '|' !in PrintInt(n)
  {
    PrintNatShape(if n < 0 then -n else n);
  }

  lemma NumericText(ip: Ipv4)
    ensures '|' !in PrintIp(ip)
  {
    hide PrintNat;
    PrintNatShape(ip.a);
    PrintNatShape(ip.b);
    PrintNatShape(ip.c);
    PrintNatShape(ip.d);
  }

  /** The strings of a valid configuration can be encoded. */
  lemma ValidIsAscii(c: Settings, f: Field)
    requires IsConfig(c) && IsValid(c)
    ensures f in WireOf(c) && IsAscii(WireOf(c)[f])
  {
    hide FIELDS, KindOf, PrintIp, PrintInt, IsAscii;
    EveryField(f);
    assert !Afflicts(NotAscii(f), c);
    match c[f]
    case Str(text) =>
    case Ip(ip) => AddressAscii(ip);
    case Int(n) => NumberAscii(n);
    case Code(code) => NumberAscii(code);
  }

  lemma NumberAscii(n: int)
    ensures IsAscii(PrintInt(n))
  {
    PrintNatShape(if n < 0 then -n else n);
    hide PrintNat;
  }

  lemma AddressAscii(ip: Ipv4)
    ensures IsAscii(PrintIp(ip))
  {
    hide PrintNat;
    NumberAscii(ip.a);
    NumberAscii(ip.b);
    NumberAscii(ip.c);
    NumberAscii(ip.d);
    assert IsAscii(".");
    hide IsAscii;
    var u := PrintNat(ip.c) + "." + PrintNat(ip.d);
    AsciiAppend(PrintNat(ip.c), ".");
    AsciiAppend(PrintNat(ip.c) + ".", PrintNat(ip.d));
    AsciiAppend(PrintNat(ip.b), ".");
    AsciiAppend(PrintNat(ip.b) + ".", u);
    AsciiAppend(PrintNat(ip.a), ".");
    AsciiAppend(PrintNat(ip.a) + ".", PrintNat(ip.b) + "." + u);
  }
}
