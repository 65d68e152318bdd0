/** Reading and writing a whole configuration: `hwvx/device.py`. */
module Device {
  import opened Wrappers
  import opened Text
  import opened Config
  import opened Transport

  /** The settings in the order in which they are read. */
  const GET_ORDER: seq<Field> := [
    Username, DeviceName, MacAddress, IpAddress, PortNumber, Protocol, WorkMode, ConnectionMode,
    ConnectionTimeout, Rts, DtrMode, BaudRate, Parity, DataBits, Reconnect, MaxLength,
    MaxDelay, RemoteIp, RemotePort, GatewayIp, SubnetMask, Dhcp]

  /** The two-letter code of a setting. */
  function CodeOf(f: Field): (code: string)
    ensures |code| == 2
  {
    match f
    case Username => "ON" case DeviceName => "DN" case MacAddress => "FE" case IpAddress => "IP"
    case PortNumber => "PN" case Protocol => "TP" case WorkMode => "RM" case ConnectionMode => "CM"
    case ConnectionTimeout => "CT" case Rts => "FC" case DtrMode => "DT" case BaudRate => "BR"
    case Parity => "PR" case DataBits => "BB" case Reconnect => "RC" case MaxLength => "ML"
    case MaxDelay => "MD" case RemoteIp => "DI" case RemotePort => "DP" case GatewayIp => "GI"
    case SubnetMask => "NM" case Dhcp => "DH"
  }

  /** The check token of a setting's get command. */
  function GetCheck(f: Field): (check: string)
    ensures '|' !in check && |check| == 2
  {
    match f
    case Username => "01" case DeviceName => "02" case MacAddress => "03" case IpAddress => "04"
    case PortNumber => "05" case Protocol => "06" case WorkMode => "07" case ConnectionMode => "08"
    case ConnectionTimeout => "09" case Rts => "0A" case DtrMode => "0B" case BaudRate => "0C"
    case Parity => "0D" case DataBits => "0E" case Reconnect => "0F" case MaxLength => "10"
    case MaxDelay => "11" case RemoteIp => "12" case RemotePort => "13" case GatewayIp => "14"
    case SubnetMask => "15" case Dhcp => "16"
  }

  /** The check token of a setting's set command; empty for the two that are not written. */
  function SetCheck(f: Field): (check: string)
    ensures '|' !in check
  {
    match f
    case Username => "12" case DeviceName => "13" case MacAddress => "" case IpAddress => "25"
    case PortNumber => "15" case Protocol => "14" case WorkMode => "16" case ConnectionMode => "1D"
    case ConnectionTimeout => "1E" case Rts => "17" case DtrMode => "18" case BaudRate => "19"
    case Parity => "1A" case DataBits => "1B" case Reconnect => "1C" case MaxLength => "1F"
    case MaxDelay => "20" case RemoteIp => "21" case RemotePort => "22" case GatewayIp => "23"
    case SubnetMask => "24" case Dhcp => ""
  }

  const SET_ORDER: seq<Field> := [
    Username, DeviceName, Protocol, PortNumber, WorkMode, Rts, DtrMode, BaudRate, Parity, DataBits,
    Reconnect, ConnectionMode, ConnectionTimeout, MaxLength, MaxDelay,
    RemoteIp, RemotePort, GatewayIp, SubnetMask, IpAddress]

  /** The position of a field in the reading order. */
  function Position(f: Field): (i: nat)
    ensures i < |GET_ORDER| == 22 && GET_ORDER[i] == f
  {
    match f
    case Username => 0 case DeviceName => 1 case MacAddress => 2 case IpAddress => 3 case PortNumber => 4
    case Protocol => 5 case WorkMode => 6 case ConnectionMode => 7 case ConnectionTimeout => 8 case Rts => 9
    case DtrMode => 10 case BaudRate => 11 case Parity => 12 case DataBits => 13 case Reconnect => 14
    case MaxLength => 15 case MaxDelay => 16 case RemoteIp => 17 case RemotePort => 18 case GatewayIp => 19
    case SubnetMask => 20 case Dhcp => 21
  }

  predicate Writable(f: Field) {
    f != MacAddress && f != Dhcp
  }

  // ---- the set commands as a program ----

  function GetCommand(f: Field): string {
    "G" + CodeOf(f) + "|" + GetCheck(f)
  }

  function SetCommand(f: Field, value: string): string {
    "S" + CodeOf(f) + value + "|" + SetCheck(f)
  }

  function SetCommands(wire: Wire, order: seq<Field>): (commands: seq<string>)
    requires forall f :: f in order ==> f in wire
    ensures |commands| == |order|
  {
    seq(|order|, i requires 0 <= i < |order| => SetCommand(order[i], wire[order[i]]))
  }

  predicate IsFull(wire: Wire) {
    forall f: Field :: f in wire
  }

  /** Login, every set command, reboot. */
  function ConfigPass(wire: Wire): seq<string>
    requires IsFull(wire)
  {
    ["L"] + SetCommands(wire, SET_ORDER) + ["E"]
  }

  datatype Assignment = Assignment(code: string, value: string, check: string)

  /** How the module reads a command: `S`, a two-letter code, the value, the delimiter, the check. */
  function ParseSet(command: string): Option<Assignment> {
    if |command| < 3 || command[0] != 'S' then None
    else
      var parts := Split(command[3..], '|');
      if |parts| == 2 then Some(Assignment(command[1..3], parts[0], parts[1])) else None
  }

  /** A set command reads back as what it was built from iff the value is free of the delimiter. */
  lemma SetCommandReadsBack(f: Field, value: string)
    ensures ParseSet(SetCommand(f, value)) == Some(Assignment(CodeOf(f), value, SetCheck(f)))
        <==> '|' !in value
  {
    hide CodeOf, SetCheck, Split;
    var command := SetCommand(f, value);
    assert command[1..3] == CodeOf(f);
    assert command[3..] == value + "|" + SetCheck(f);
    SplitInTwo(command[3..], '|', value, SetCheck(f));
    var parts := Split(command[3..], '|');
    if |parts| == 2 {
      assert parts == [parts[0], parts[1]];
    }
  }

  lemma OrderCoversWritable(f: Field)
    ensures Writable(f) <==> f in SET_ORDER
  {
    if Writable(f) {
      WritableInOrder(f);
    }
  }

  lemma WritableInOrder(f: Field)
    requires Writable(f)
    ensures f in SET_ORDER
  {
    var i: nat := match f
      case Username => 0 case DeviceName => 1 case Protocol => 2 case PortNumber => 3 case WorkMode => 4
      case Rts => 5 case DtrMode => 6 case BaudRate => 7 case Parity => 8 case DataBits => 9
      case Reconnect => 10 case ConnectionMode => 11 case ConnectionTimeout => 12 case MaxLength => 13
      case MaxDelay => 14 case RemoteIp => 15 case RemotePort => 16 case GatewayIp => 17
      case SubnetMask => 18 case IpAddress => 19;
    assert SET_ORDER[i] == f;
  }

  lemma OrderHasNoRepeats()
    ensures |SET_ORDER| == 20 && SET_ORDER[19] == IpAddress
    ensures forall i, j :: 0 <= i < j < |SET_ORDER| ==> SET_ORDER[i] != SET_ORDER[j]
  {}

  lemma CodesDistinct(f: Field, g: Field)
    requires CodeOf(f) == CodeOf(g)
    ensures f == g
  {
    assert CodeOf(f)[0] == CodeOf(g)[0] && CodeOf(f)[1] == CodeOf(g)[1];
  }

  predicate AllAscii(commands: seq<string>) {
    forall command :: command in commands ==> IsAscii(command)
  }

  /** A valid configuration is sent in ASCII only, so no command of it fails to be encoded. */
  lemma PassIsAscii(c: Settings)
    requires IsConfig(c) && IsValid(c)
    ensures IsFull(WireOf(c)) && AllAscii(ConfigPass(WireOf(c)))
  {
    hide WireOf, IsValid, IsConfig, SET_ORDER, SetCommand, IsAscii;
    var wire := WireOf(c);
    forall f: Field
      ensures f in wire && IsAscii(SetCommand(f, wire[f]))
    {
      ValidIsAscii(c, f);
      SetCommandAscii(f, wire[f]);
    }
    assert IsAscii("L") && IsAscii("E") by { LoginRebootAscii(); }
  }

  lemma GetCommandAscii(f: Field)
    ensures IsAscii("G" + CodeOf(f) + "|" + GetCheck(f)) && IsAscii(GetCheck(f))
  {
    assert IsAscii("G") && IsAscii(CodeOf(f)) && IsAscii("|") && IsAscii(GetCheck(f));
    hide CodeOf, GetCheck, IsAscii;
    AsciiAppend("G", CodeOf(f));
    AsciiAppend("G" + CodeOf(f), "|");
    AsciiAppend("G" + CodeOf(f) + "|", GetCheck(f));
  }

  lemma LoginRebootAscii()
    ensures IsAscii("L") && IsAscii("E")
  {}

  lemma SetCommandAscii(f: Field, value: string)
    requires IsAscii(value)
    ensures IsAscii(SetCommand(f, value))
  {
    assert IsAscii(CodeOf(f)) && IsAscii(SetCheck(f));
    hide CodeOf, SetCheck;
  }

  /** The command that reads each setting, and the order in which they are read. */
  lemma GetTable(f: Field)
    ensures GetCommand(f) ==
      match f
      case Username => "GON|01" case DeviceName => "GDN|02" case MacAddress => "GFE|03"
      case IpAddress => "GIP|04" case PortNumber => "GPN|05" case Protocol => "GTP|06"
      case WorkMode => "GRM|07" case ConnectionMode => "GCM|08" case ConnectionTimeout => "GCT|09"
      case Rts => "GFC|0A" case DtrMode => "GDT|0B" case BaudRate => "GBR|0C" case Parity => "GPR|0D"
      case DataBits => "GBB|0E" case Reconnect => "GRC|0F" case MaxLength => "GML|10" case MaxDelay => "GMD|11"
      case RemoteIp => "GDI|12" case RemotePort => "GDP|13" case GatewayIp => "GGI|14"
      case SubnetMask => "GNM|15" case Dhcp => "GDH|16"
    ensures GET_ORDER == [
      Username, DeviceName, MacAddress, IpAddress, PortNumber, Protocol, WorkMode, ConnectionMode,
      ConnectionTimeout, Rts, DtrMode, BaudRate, Parity, DataBits, Reconnect, MaxLength, MaxDelay, RemoteIp,
      RemotePort, GatewayIp, SubnetMask, Dhcp]
  {}

  /** The text before and behind the value in the command that writes each setting, and their order. */
  lemma SetTable(f: Field, value: string)
    requires f != MacAddress && f != Dhcp
    ensures
      var front := match f
        case Username => "SON" case DeviceName => "SDN" case IpAddress => "SIP" case PortNumber => "SPN"
        case Protocol => "STP" case WorkMode => "SRM" case ConnectionMode => "SCM"
        case ConnectionTimeout => "SCT" case Rts => "SFC" case DtrMode => "SDT" case BaudRate => "SBR"
        case Parity => "SPR" case DataBits => "SBB" case Reconnect => "SRC" case MaxLength => "SML"
        case MaxDelay => "SMD" case RemoteIp => "SDI" case RemotePort => "SDP" case GatewayIp => "SGI"
        case SubnetMask => "SNM"
        case _ => "";
      var behind := match f
        case Username => "|12" case DeviceName => "|13" case IpAddress => "|25" case PortNumber => "|15"
        case Protocol => "|14" case WorkMode => "|16" case ConnectionMode => "|1D"
        case ConnectionTimeout => "|1E" case Rts => "|17" case DtrMode => "|18" case BaudRate => "|19"
        case Parity => "|1A" case DataBits => "|1B" case Reconnect => "|1C" case MaxLength => "|1F"
        case MaxDelay => "|20" case RemoteIp => "|21" case RemotePort => "|22" case GatewayIp => "|23"
        case SubnetMask => "|24"
        case _ => "";
      SetCommand(f, value) == front + value + behind
    ensures SET_ORDER == [
      Username, DeviceName, Protocol, PortNumber, WorkMode, Rts, DtrMode, BaudRate, Parity, DataBits,
      Reconnect, ConnectionMode, ConnectionTimeout, MaxLength, MaxDelay, RemoteIp, RemotePort, GatewayIp,
      SubnetMask, IpAddress]
  {
    SetParts(f, value);
    SetCodes(f);
    SetChecks(f);
    hide CodeOf, SetCheck, SetCommand;
  }

  lemma SetParts(f: Field, value: string)
    ensures SetCommand(f, value) == ("S" + CodeOf(f)) + value + ("|" + SetCheck(f))
  {
    hide CodeOf, SetCheck;
  }

  lemma SetCodes(f: Field)
    requires f != MacAddress && f != Dhcp
    ensures "S" + CodeOf(f) ==
      match f
      case Username => "SON" case DeviceName => "SDN" case IpAddress => "SIP" case PortNumber => "SPN"
      case Protocol => "STP" case WorkMode => "SRM" case ConnectionMode => "SCM"
      case ConnectionTimeout => "SCT" case Rts => "SFC" case DtrMode => "SDT" case BaudRate => "SBR"
      case Parity => "SPR" case DataBits => "SBB" case Reconnect => "SRC" case MaxLength => "SML"
      case MaxDelay => "SMD" case RemoteIp => "SDI" case RemotePort => "SDP" case GatewayIp => "SGI"
      case SubnetMask => "SNM"
      case _ => ""
  {}

  lemma SetChecks(f: Field)
    requires f != MacAddress && f != Dhcp
    ensures "|" + SetCheck(f) ==
      match f
      case Username => "|12" case DeviceName => "|13" case IpAddress => "|25" case PortNumber => "|15"
      case Protocol => "|14" case WorkMode => "|16" case ConnectionMode => "|1D"
      case ConnectionTimeout => "|1E" case Rts => "|17" case DtrMode => "|18" case BaudRate => "|19"
      case Parity => "|1A" case DataBits => "|1B" case Reconnect => "|1C" case MaxLength => "|1F"
      case MaxDelay => "|20" case RemoteIp => "|21" case RemotePort => "|22" case GatewayIp => "|23"
      case SubnetMask => "|24"
      case _ => ""
  {}

  /** One pass is login, the command for each writable setting, in order, and reboot. */
  lemma PassIs(wire: Wire)
    requires IsFull(wire)
    ensures var pass := ConfigPass(wire);
      && |pass| == 22 && pass[0] == "L" && pass[21] == "E"
      && forall i :: 0 <= i < 20 ==> pass[i + 1] == SetCommand(SET_ORDER[i], wire[SET_ORDER[i]])
  {
    hide SET_ORDER, SetCommand;
    assert |SET_ORDER| == 20 by { OrderHasNoRepeats(); }
  }

  // ---- the module ----

  /** What a module with the settings `store` holds after one command. */
  ghost function Obey(store: Wire, command: string): Wire {
    var p := ParseSet(command);
    if p.Some? && exists f: Field :: CodeOf(f) == p.value.code then
      var f: Field :| CodeOf(f) == p.value.code;
      store[f := p.value.value]
    else store
  }

  ghost function ObeyAll(store: Wire, commands: seq<string>): Wire
    decreases |commands|
  {
    if commands == [] then store else ObeyAll(Obey(store, commands[0]), commands[1..])
  }

  lemma {:induction false} ObeyAppend(store: Wire, a: seq<string>, b: seq<string>)
    ensures ObeyAll(store, a + b) == ObeyAll(ObeyAll(store, a), b)
    decreases |a|
  {
    hide Obey;
    if a == [] {
      assert a + b == b;
    } else {
      assert (a + b)[1..] == a[1..] + b;
      ObeyAppend(Obey(store, a[0]), a[1..], b);
    }
  }

  lemma ObeySet(store: Wire, f: Field, value: string)
    requires '|' !in value
    ensures Obey(store, SetCommand(f, value)) == store[f := value]
  {
    hide CodeOf, ParseSet, SetCommand;
    SetCommandReadsBack(f, value);
    var p := ParseSet(SetCommand(f, value)).value;
    assert CodeOf(f) == p.code;
    forall g: Field | CodeOf(g) == p.code
      ensures g == f
    {
      CodesDistinct(f, g);
    }
  }

  lemma ObeyOther(store: Wire, command: string)
    requires command == [] || command[0] != 'S'
    ensures Obey(store, command) == store
  {}

  predicate Framed(wire: Wire) {
    forall f: Field :: f in wire ==> '|' !in wire[f]
  }

  /** The settings that a list of fields writes. */
  function Written(wire: Wire, order: seq<Field>): Wire
    requires forall f :: f in order ==> f in wire
  {
    map f | f in order :: wire[f]
  }

  lemma {:induction false} SetCommandsWrite(store: Wire, wire: Wire, order: seq<Field>)
    requires Framed(wire) && forall f :: f in order ==> f in wire
    ensures ObeyAll(store, SetCommands(wire, order)) == store + Written(wire, order)
    decreases |order|
  {
    hide Obey, SetCommand;
    if order == [] {
      assert store + map[] == store;
    } else {
      var f, others := order[0], order[1..];
      ObeySet(store, f, wire[f]);
      assert SetCommands(wire, order)[1..] == SetCommands(wire, others);
      hide SetCommands, Written;
      SetCommandsWrite(store[f := wire[f]], wire, others);
      WrittenCons(store, wire, order);
    }
  }

  lemma WrittenCons(store: Wire, wire: Wire, order: seq<Field>)
    requires order != [] && forall f :: f in order ==> f in wire
    ensures store[order[0] := wire[order[0]]] + Written(wire, order[1..]) == store + Written(wire, order)
  {
    assert order == [order[0]] + order[1..];
  }

  /**
   * The emitted commands are a program that assigns exactly the writable settings, and running
   * it a second time changes nothing.
   */
  lemma {:induction false} PassWrites(store: Wire, wire: Wire)
    requires IsFull(wire) && Framed(wire)
    ensures var once := ObeyAll(store, ConfigPass(wire));
      && once == store + Written(wire, SET_ORDER)
      && (forall f: Field :: Writable(f) ==> f in once && once[f] == wire[f])
      && (forall f: Field :: !Writable(f) ==> (f in once <==> f in store) && (f in store ==> once[f] == store[f]))
      && ObeyAll(once, ConfigPass(wire)) == once
  {
    hide Obey, SET_ORDER, SetCommands, Writable;
    PassEffect(store, wire);
    var once := ObeyAll(store, ConfigPass(wire));
    PassEffect(once, wire);
    assert once + Written(wire, SET_ORDER) == once;
    forall f: Field
      ensures Writable(f) <==> f in SET_ORDER
    {
      OrderCoversWritable(f);
    }
  }

  lemma PassEffect(store: Wire, wire: Wire)
    requires IsFull(wire) && Framed(wire)
    ensures ObeyAll(store, ConfigPass(wire)) == store + Written(wire, SET_ORDER)
  {
    hide Obey, SET_ORDER, SetCommands, Written;
    var sets := SetCommands(wire, SET_ORDER);
    ObeyAppend(store, ["L"] + sets, ["E"]);
    ObeyAppend(store, ["L"], sets);
    ObeyOne(store, "L");
    SetCommandsWrite(store, wire, SET_ORDER);
    ObeyOne(store + Written(wire, SET_ORDER), "E");
  }

  lemma ObeyOne(store: Wire, command: string)
    requires command != [] && command[0] != 'S'
    ensures ObeyAll(store, [command]) == store
  {
    ObeyOther(store, command);
    assert [command][1..] == [];
  }

  // ---- the module with its session ----

  /**
   * A module as the documented sequence has it: set commands count only in a session, which login
   * opens, and take effect when a reboot ends it.
   */
  datatype Unit = Unit(current: Wire, pending: Wire, open: bool)

  ghost function Serve(u: Unit, command: string): Unit {
    if command == "L" then u.(open := true)
    else if command == "E" then Unit(u.current + u.pending, map[], false)
    else if u.open then u.(pending := Obey(u.pending, command))
    else u
  }

  ghost function ServeAll(u: Unit, commands: seq<string>): Unit
    decreases |commands|
  {
    if commands == [] then u else ServeAll(Serve(u, commands[0]), commands[1..])
  }

  lemma {:induction false} ServeAppend(u: Unit, a: seq<string>, b: seq<string>)
    ensures ServeAll(u, a + b) == ServeAll(ServeAll(u, a), b)
    decreases |a|
  {
    hide Serve;
    if a == [] {
      assert a + b == b;
    } else {
      assert (a + b)[1..] == a[1..] + b;
      ServeAppend(Serve(u, a[0]), a[1..], b);
    }
  }

  lemma ServeOne(u: Unit, command: string)
    ensures ServeAll(u, [command]) == Serve(u, command)
  {
    hide Serve;
    assert [command][1..] == [];
  }

  lemma {:induction false} ServeSets(u: Unit, commands: seq<string>)
    requires u.open && forall command :: command in commands ==> command != "L" && command != "E"
    ensures ServeAll(u, commands) == u.(pending := ObeyAll(u.pending, commands))
    decreases |commands|
  {
    hide Obey;
    if commands == [] {
      assert u == u.(pending := u.pending);
    } else {
      assert commands[0] in commands && forall command :: command in commands[1..] ==> command in commands;
      ServeSets(u.(pending := Obey(u.pending, commands[0])), commands[1..]);
    }
  }

  lemma SetCommandsAreSets(wire: Wire, order: seq<Field>)
    requires forall f :: f in order ==> f in wire
    ensures forall command :: command in SetCommands(wire, order) ==> command != "L" && command != "E"
  {
    hide CodeOf, SetCheck;
    forall i | 0 <= i < |order|
      ensures SetCommand(order[i], wire[order[i]])[0] == 'S'
    {}
  }

  /**
   * One pass brings all writable settings into effect, whatever was pending before, and leaves
   * nothing pending and no session open.
   */
  lemma {:induction false} PassServed(u: Unit, wire: Wire)
    requires IsFull(wire) && Framed(wire)
    ensures ServeAll(u, ConfigPass(wire)) == Unit(u.current + u.pending + Written(wire, SET_ORDER), map[], false)
  {
    hide Obey, SET_ORDER, SetCommands, Written, ServeAll;
    var sets := SetCommands(wire, SET_ORDER);
    var v := u.(open := true);
    ServeAppend(u, ["L"] + sets, ["E"]);
    ServeAppend(u, ["L"], sets);
    ServeOne(u, "L");
    SetCommandsAreSets(wire, SET_ORDER);
    ServeSets(v, sets);
    SetCommandsWrite(u.pending, wire, SET_ORDER);
    ServeOne(v.(pending := u.pending + Written(wire, SET_ORDER)), "E");
    assert u.current + (u.pending + Written(wire, SET_ORDER)) == u.current + u.pending + Written(wire, SET_ORDER);
  }

  // ---- reading back ----

  datatype GetError = Lost(error: TransportError) | Unreadable(fields: seq<Field>)

  datatype Fetched = Fetched(wire: Result<Wire, TransportError>, rest: Script, sent: seq<string>)

  /** The get commands from the i-th on: what they read is added to `raw`, what they send to `sent`. */
  function Fetch(script: Script, i: nat, raw: Wire, sent: seq<string>): Fetched
    requires i <= |GET_ORDER|
    decreases |GET_ORDER| - i
  {
    if i == |GET_ORDER| then Fetched(Ok(raw), script, sent)
    else
      var f := GET_ORDER[i];
      var (answer, used) := Answered(script, GetCheck(f));
      var rest, longer := After(script, used), sent + Repeated(GetCommand(f), used);
      if answer.Err? then Fetched(Err(answer.error), rest, longer)
      else Fetch(rest, i + 1, raw[f := answer.value], longer)
  }

  function GetResult(script: Script): Result<Settings, GetError> {
    match Fetch(script, 0, map[], []).wire
    case Err(e) => Err(Lost(e))
    case Ok(raw) =>
      match Reading(raw)
      case Err(fields) => Err(Unreadable(fields))
      case Ok(config) => Ok(config)
  }

  /** Reading fails with the first request that does, or with all the fields that cannot be read. */
  lemma GetResultIs(script: Script)
    ensures match Fetch(script, 0, map[], []).wire
      case Err(e) => GetResult(script) == Err(Lost(e))
      case Ok(raw) =>
        match Reading(raw)
        case Err(fields) => GetResult(script) == Err(Unreadable(fields))
        case Ok(config) => GetResult(script) == Ok(config)
  {
    hide Fetch, Reading;
  }

  /** Receives that do not end the wait, to come before each reply. */
  predicate IsNoise(noise: seq<Script>) {
    |noise| == |GET_ORDER| && forall i :: 0 <= i < |noise| ==> NoAnswers(noise[i])
  }

  predicate NoAnswers(replies: Script) {
    forall r :: r in replies ==> !Ends(r)
  }

  /** At most four of them before each reply. */
  predicate Tolerable(noise: seq<Script>) {
    IsNoise(noise) && forall i :: 0 <= i < |noise| ==> |noise[i]| < RETRIES
  }

  /** The value can be told apart from the rest of a reply. */
  predicate Plain(value: string) {
    IsAscii(value) && '|' !in value
  }

  predicate AllPlain(wire: Wire) {
    forall f: Field :: f in wire ==> Plain(wire[f])
  }

  /** What a module that holds `store` replies to a command `G{code}|{check}`. */
  ghost function ReplyTo(store: Wire, command: string): string
    requires IsFull(store)
  {
    if |command| > 3 && command[0] == 'G' && exists f: Field :: CodeOf(f) == command[1..3] then
      var f: Field :| CodeOf(f) == command[1..3];
      "A" + store[f] + command[3..]
    else ""
  }

  lemma ReplyToGet(store: Wire, f: Field)
    requires IsFull(store)
    ensures ReplyTo(store, GetCommand(f)) == "A" + store[f] + "|" + GetCheck(f)
  {
    hide CodeOf, GetCheck;
    var command := GetCommand(f);
    assert command[1..3] == CodeOf(f) && command[3..] == "|" + GetCheck(f);
    forall g: Field | CodeOf(g) == command[1..3]
      ensures g == f
    {
      CodesDistinct(f, g);
    }
    assert "A" + store[f] + ("|" + GetCheck(f)) == "A" + store[f] + "|" + GetCheck(f);
  }

  /** What such a module sends in reply to the get commands, over a lossy network. */
  ghost function Replies(wire: Wire, noise: seq<Script>, i: nat): Script
    requires IsFull(wire) && |noise| == |GET_ORDER| && i <= |GET_ORDER|
    decreases |GET_ORDER| - i
  {
    if i == |GET_ORDER| then []
    else noise[i] + [ReplyTo(wire, GetCommand(GET_ORDER[i]))] + Replies(wire, noise, i + 1)
  }

  /** One command for each receive. */
  function Asked(noise: seq<Script>, i: nat): seq<string>
    requires |noise| == |GET_ORDER| && i <= |GET_ORDER|
    decreases |GET_ORDER| - i
  {
    if i == |GET_ORDER| then []
    else Repeated(GetCommand(GET_ORDER[i]), |noise[i]| + 1) + Asked(noise, i + 1)
  }

  /** After at most four failed receives a reply decides; its value is found iff it is plain. */
  lemma NoisyAnswer(noise: Script, value: string, check: string, rest: Script)
    requires |noise| < RETRIES && NoAnswers(noise)
    requires Plain(check)
    ensures var script := noise + ["A" + value + "|" + check] + rest;
      && (Plain(value) ==> Answered(script, check).0 == Ok(value))
      && (!Plain(value) ==> Answered(script, check).0.Err?)
      && Answered(script, check).1 == |noise| + 1
      && After(script, |noise| + 1) == rest
  {
    hide IsAscii;
    var reply := "A" + value + "|" + check;
    var script := noise + [reply] + rest;
    var k := |noise|;
    assert script[k] == reply && reply[1..] == value + "|" + check;
    forall i | 0 <= i < k
      ensures !Ends(ReplyAt(script, i))
    {
      assert script[i] == noise[i] && noise[i] in noise;
    }
    MissesUnique(script, RETRIES, k);
    ReplyAscii(value, check);
    FoundByToken(value, check, check);
    if k + 1 < |script| {
      assert script[k + 1..] == rest;
    } else {
      assert rest == [];
    }
  }

  lemma ReplyAscii(value: string, check: string)
    requires IsAscii(check)
    ensures IsAscii("A" + value + "|" + check) <==> IsAscii(value)
  {
    assert IsAscii("A") && IsAscii("|");
    hide IsAscii;
    AsciiAppend("A", value);
    AsciiAppend("A" + value, "|");
    AsciiAppend("A" + value + "|", check);
  }

  /** Only the expected token makes a reply's value be found. */
  lemma FoundByToken(value: string, sent: string, expected: string)
    requires '|' !in expected && |sent| == |expected|
    ensures ValueIn(value + "|" + sent, expected)
         == if sent == expected && '|' !in value then Some(value) else None
  {
    hide ValueIn;
    var reply := value + "|" + sent;
    var found := ValueIn(reply, expected);
    ValueInExact(reply, expected, value);
    if found.Some? {
      ValueInExact(reply, expected, found.value);
      assert reply[|reply| - |sent|..] == sent && reply[|reply| - |sent|..] == expected;
      assert reply[..|reply| - |sent| - 1] == value && reply[..|reply| - |sent| - 1] == found.value;
    }
  }

  lemma NoiseTooLong(noise: Script, check: string, rest: Script)
    requires |noise| >= RETRIES && NoAnswers(noise)
    ensures Answered(noise + rest, check).0 == Err(NoAnswer)
  {
    forall i | 0 <= i < RETRIES
      ensures !Ends(ReplyAt(noise + rest, i))
    {
      assert (noise + rest)[i] == noise[i] && noise[i] in noise;
    }
    MissesUnique(noise + rest, RETRIES, RETRIES);
  }

  lemma CheckIsPlain(f: Field)
    ensures Plain(GetCheck(f))
  {
    GetCommandAscii(f);
  }

  /** One reply that does not come through, or cannot be told apart, fails the whole reading. */
  lemma {:induction false} FetchFails(
    wire: Wire, noise: seq<Script>, i: nat, raw: Wire, sent: seq<string>, bad: nat)
    requires IsFull(wire) && IsNoise(noise) && i <= bad < |GET_ORDER|
    requires |noise[bad]| >= RETRIES || !Plain(wire[GET_ORDER[bad]])
    ensures Fetch(Replies(wire, noise, i), i, raw, sent).wire.Err?
    decreases |GET_ORDER| - i
  {
    hide GetCheck, Answered, After, GET_ORDER, CodeOf, Repeated, ReplyTo, GetCommand, NoAnswers, Plain;
    var f, others := GET_ORDER[i], Replies(wire, noise, i + 1);
    ReplyToGet(wire, f);
    CheckIsPlain(f);
    if |noise[i]| >= RETRIES {
      NoiseTooLong(noise[i], GetCheck(f), [ReplyTo(wire, GetCommand(f))] + others);
      assert Replies(wire, noise, i) == noise[i] + ([ReplyTo(wire, GetCommand(f))] + others);
    } else {
      NoisyAnswer(noise[i], wire[f], GetCheck(f), others);
      if Plain(wire[f]) {
        var longer := sent + Repeated(GetCommand(f), |noise[i]| + 1);
        FetchFails(wire, noise, i + 1, raw[f := wire[f]], longer, bad);
      }
    }
  }

  /** The part of `wire` that the first `i` get commands read. */
  function ReadSoFar(wire: Wire, i: nat): Wire {
    map f | f in wire && Position(f) < i :: wire[f]
  }

  lemma {:induction false} FetchReplies(wire: Wire, noise: seq<Script>, i: nat, sent: seq<string>, later: Script)
    requires IsFull(wire) && AllPlain(wire) && Tolerable(noise) && i <= |GET_ORDER|
    ensures Fetch(Replies(wire, noise, i) + later, i, ReadSoFar(wire, i), sent)
         == Fetched(Ok(wire), later, sent + Asked(noise, i))
    decreases |GET_ORDER| - i
  {
    hide Position, GetCheck, Answered, After, GET_ORDER, CodeOf, Repeated, ReplyTo, GetCommand, ReadSoFar, Plain;
    if i == |GET_ORDER| {
      AllRead(wire);
      assert sent + [] == sent && [] + later == later;
    } else {
      var f, n := GET_ORDER[i], |noise[i]| + 1;
      var others := Replies(wire, noise, i + 1) + later;
      ReplyToGet(wire, f);
      CheckIsPlain(f);
      NoisyAnswer(noise[i], wire[f], GetCheck(f), others);
      assert Replies(wire, noise, i) + later == noise[i] + [ReplyTo(wire, GetCommand(f))] + others;
      var longer := sent + Repeated(GetCommand(f), n);
      FetchReplies(wire, noise, i + 1, longer, later);
      ReadOneMore(wire, i);
      assert longer + Asked(noise, i + 1) == sent + (Repeated(GetCommand(f), n) + Asked(noise, i + 1));
    }
  }

  lemma AllRead(wire: Wire)
    ensures ReadSoFar(wire, |GET_ORDER|) == wire
  {}

  lemma ReadOneMore(wire: Wire, i: nat)
    requires IsFull(wire) && i < |GET_ORDER|
    ensures ReadSoFar(wire, i)[GET_ORDER[i] := wire[GET_ORDER[i]]] == ReadSoFar(wire, i + 1)
  {
    hide Position, GET_ORDER;
    forall g: Field
      ensures Position(g) == i <==> g == GET_ORDER[i]
    {
      PositionUnique(g, i);
    }
  }

  lemma PositionUnique(g: Field, i: nat)
    requires i < |GET_ORDER|
    ensures Position(g) == i <==> g == GET_ORDER[i]
  {
    GetOrderHasNoRepeats();
    hide Position, GET_ORDER;
    var p := Position(g);
    assert GET_ORDER[p] == g;
  }

  lemma GetOrderHasNoRepeats()
    ensures forall i, j :: 0 <= i < j < |GET_ORDER| ==> GET_ORDER[i] != GET_ORDER[j]
  {}

  /**
   * Reading a module, whatever it holds: every setting comes through iff each reply is preceded
   * by at most four failed receives and each value is plain; and then the result is the reading
   * of just the strings that the module holds, with one command sent for each receive.
   */
  lemma {:induction false} GetExact(store: Wire, noise: seq<Script>)
    requires IsFull(store) && IsNoise(noise)
    ensures var fetched := Fetch(Replies(store, noise, 0), 0, map[], []);
      && (fetched.wire.Ok? <==> Tolerable(noise) && AllPlain(store))
      && (fetched.wire.Ok? ==> fetched == Fetched(Ok(store), [], Asked(noise, 0)))
  {
    hide Fetch, Replies, ReadSoFar, IsNoise, Plain;
    assert |noise| == |GET_ORDER| by { NoiseLength(noise); }
    if Tolerable(noise) && AllPlain(store) {
      FetchReplies(store, noise, 0, [], []);
      assert Replies(store, noise, 0) + [] == Replies(store, noise, 0);
      assert ReadSoFar(store, 0) == map[] by { NothingRead(store); }
      assert [] + Asked(noise, 0) == Asked(noise, 0);
    } else {
      var bad := WhereItFails(store, noise);
      FetchFails(store, noise, 0, map[], [], bad);
    }
  }

  lemma WhereItFails(store: Wire, noise: seq<Script>) returns (bad: nat)
    requires IsFull(store) && IsNoise(noise) && !(Tolerable(noise) && AllPlain(store))
    ensures bad < |GET_ORDER| == |noise| && (|noise[bad]| >= RETRIES || !Plain(store[GET_ORDER[bad]]))
  {
    hide Plain, NoAnswers, GET_ORDER, Position;
    if Tolerable(noise) {
      var f: Field :| !Plain(store[f]);
      bad := Position(f);
    } else {
      bad :| bad < |noise| && |noise[bad]| >= RETRIES;
    }
  }

  lemma NoiseLength(noise: seq<Script>)
    requires IsNoise(noise)
    ensures |noise| == |GET_ORDER|
  {}

  lemma NothingRead(wire: Wire)
    ensures ReadSoFar(wire, 0) == map[]
  {}

  /**
   * A module that holds a valid configuration's strings is read back exactly iff no reply is
   * preceded by five or more failed receives.
   */
  lemma {:induction false} GetReadsBack(c: Settings, noise: seq<Script>)
    requires IsConfig(c) && IsValid(c) && IsNoise(noise)
    ensures IsFull(WireOf(c))
    ensures GetResult(Replies(WireOf(c), noise, 0)) == Ok(c) <==> Tolerable(noise)
    ensures Tolerable(noise) ==> Fetch(Replies(WireOf(c), noise, 0), 0, map[], []).sent == Asked(noise, 0)
  {
    hide Fetch, Replies, Reading, IsConfig, IsValid, IsNoise, WireOf, Plain, Tolerable;
    ValidIsPlain(c);
    GetExact(WireOf(c), noise);
    WireRoundTrip(c);
  }

  lemma ValidIsPlain(c: Settings)
    requires IsConfig(c) && IsValid(c)
    ensures IsFull(WireOf(c)) && AllPlain(WireOf(c)) && Framed(WireOf(c))
  {
    hide IsConfig, IsValid, WireOf, IsAscii;
    forall f: Field
      ensures f in WireOf(c) && Plain(WireOf(c)[f])
    {
      ValidIsFramed(c, f);
      ValidIsAscii(c, f);
    }
  }

  // ---- what the check token is for ----

  lemma ChecksDistinct(f: Field, g: Field)
    requires GetCheck(f) == GetCheck(g)
    ensures f == g
  {
    assert GetCheck(f)[0] == GetCheck(g)[0] && GetCheck(f)[1] == GetCheck(g)[1];
  }

  /** Five tokens are used twice: by a get command and by the set command of another setting. */
  lemma SharedTokens(f: Field, g: Field)
    ensures SetCheck(f) == GetCheck(g)
        <==> || (f == Username && g == RemoteIp) || (f == DeviceName && g == RemotePort)
             || (f == Protocol && g == GatewayIp) || (f == PortNumber && g == SubnetMask)
             || (f == WorkMode && g == Dhcp)
  {
    var s, t := SetCheck(f), GetCheck(g);
    if s == t {
      assert |s| == 2 && s[0] == t[0] && s[1] == t[1];
    }
  }

  /**
   * Over any network a request yields v iff the first receive within five that ends the wait is
   * the reply with this value and the expected token, and v is plain.
   */
  lemma AnswerExact(script: Script, f: Field, v: string)
    ensures var k := Misses(script, RETRIES);
      var (answer, used) := Answered(script, GetCheck(f));
      && (answer == Ok(v) <==>
            k < |script| && k < RETRIES && Plain(v) && script[k] == "A" + v + "|" + GetCheck(f))
      && (answer.Ok? ==> used == k + 1)
  {
    hide GetCheck, IsAscii, ValueIn, Misses;
    MissesFirst(script, RETRIES);
    var k, check := Misses(script, RETRIES), GetCheck(f);
    if k < RETRIES {
      NothingEndsEmpty();
      CheckIsPlain(f);
      ReplyAscii(v, check);
      ReplyBody(v, check);
      var reply := script[k];
      if IsAscii(reply) {
        assert reply == "A" + reply[1..];
        ValueInExact(reply[1..], check, v);
        assert "A" + (v + "|" + check) == "A" + v + "|" + check;
      }
    }
  }

  lemma NothingEndsEmpty()
    ensures !Ends("")
  {}

  lemma ReplyBody(value: string, check: string)
    ensures ("A" + value + "|" + check)[1..] == value + "|" + check
  {}

  /** Replies with tokens of the same length are equal only if values and tokens are. */
  lemma SameReply(v: string, check: string, w: string, other: string)
    requires |check| == |other|
    ensures "A" + v + "|" + check == "A" + w + "|" + other <==> check == other && v == w
  {
    var r := "A" + v + "|" + check;
    if r == "A" + w + "|" + other {
      assert r[|r| - |check|..] == check && r[|r| - |check|..] == other;
      assert r[1..|r| - |check| - 1] == v && r[1..|r| - |check| - 1] == w;
    }
  }

  /** The script brings one reply to each setting, in order, with at most four failed receives before each. */
  ghost predicate InOrder(script: Script, store: Wire)
    requires IsFull(store)
  {
    exists noise, later :: Brings(script, store, 0, noise, later)
  }

  ghost predicate Brings(script: Script, store: Wire, i: nat, noise: seq<Script>, later: Script)
    requires IsFull(store) && i <= |GET_ORDER|
  {
    Tolerable(noise) && script == Replies(store, noise, i) + later
  }

  lemma {:induction false} RepliesDespite(store: Wire, noise: seq<Script>, other: seq<Script>, i: nat)
    requires IsFull(store) && |noise| == |other| == |GET_ORDER| && i <= |GET_ORDER|
    requires noise[i..] == other[i..]
    ensures Replies(store, noise, i) == Replies(store, other, i)
    decreases |GET_ORDER| - i
  {
    hide GET_ORDER, ReplyTo, GetCommand;
    if i < |GET_ORDER| {
      assert noise[i] == noise[i..][0] == other[i..][0] == other[i];
      assert noise[i + 1..] == noise[i..][1..] == other[i..][1..] == other[i + 1..];
      RepliesDespite(store, noise, other, i + 1);
    }
  }

  lemma FetchOne(script: Script, i: nat, raw: Wire, sent: seq<string>)
    requires i < |GET_ORDER| && Fetch(script, i, raw, sent).wire.Ok?
    ensures var f := GET_ORDER[i];
      var (answer, used) := Answered(script, GetCheck(f));
      && answer.Ok?
      && Fetch(script, i, raw, sent)
         == Fetch(After(script, used), i + 1, raw[f := answer.value], sent + Repeated(GetCommand(f), used))
  {
    hide GetCheck, Answered, After, GET_ORDER, CodeOf, Repeated, GetCommand;
    var f := GET_ORDER[i];
    var (answer, used) := Answered(script, GetCheck(f));
    var rest, longer := After(script, used), sent + Repeated(GetCommand(f), used);
    assert answer.Ok?;
    assert Fetch(script, i, raw, sent) == Fetch(rest, i + 1, raw[f := answer.value], longer);
  }

  /** A successful reading gives every setting a value, and keeps those that it had. */
  lemma FetchKeeps(script: Script, i: nat, raw: Wire, sent: seq<string>, wire: Wire)
    requires i <= |GET_ORDER| && Fetch(script, i, raw, sent).wire == Ok(wire)
    requires forall f: Field :: f in raw <==> Position(f) < i
    ensures forall f: Field :: f in wire && (f in raw ==> wire[f] == raw[f])
    decreases |GET_ORDER| - i
  {
    hide GetCheck, Answered, After, Repeated, GetCommand, GET_ORDER, Fetch, Position;
    if i == |GET_ORDER| {
      FetchNone(script, raw, sent);
    } else {
      var f := GET_ORDER[i];
      FetchOne(script, i, raw, sent);
      var (answer, used) := Answered(script, GetCheck(f));
      OneMoreField(raw, i, answer.value);
      FetchKeeps(After(script, used), i + 1, raw[f := answer.value], sent + Repeated(GetCommand(f), used), wire);
    }
  }

  lemma FetchNone(script: Script, raw: Wire, sent: seq<string>)
    ensures Fetch(script, |GET_ORDER|, raw, sent).wire == Ok(raw)
    ensures forall f: Field :: Position(f) < |GET_ORDER|
  {
    hide GET_ORDER, Position;
  }

  lemma OneMoreField(raw: Wire, i: nat, v: string)
    requires i < |GET_ORDER| && forall f: Field :: f in raw <==> Position(f) < i
    ensures GET_ORDER[i] !in raw
    ensures forall f: Field :: f in raw[GET_ORDER[i] := v] <==> Position(f) < i + 1
  {
    hide GET_ORDER, Position;
    forall f: Field
      ensures Position(f) == i <==> f == GET_ORDER[i]
    {
      PositionUnique(f, i);
    }
  }

  /** What a successful reading shows of the replies it was made from. */
  lemma FetchShape(script: Script, i: nat, raw: Wire, sent: seq<string>, wire: Wire)
    returns (noise: seq<Script>, later: Script)
    requires i <= |GET_ORDER| && IsFull(wire) && Fetch(script, i, raw, sent).wire == Ok(wire)
    requires forall f: Field :: f in raw <==> Position(f) < i
    ensures Brings(script, wire, i, noise, later)
    ensures forall j :: i <= j < |GET_ORDER| ==> Plain(wire[GET_ORDER[j]])
    decreases |GET_ORDER| - i
  {
    hide GetCheck, Answered, After, Repeated, ReplyTo, GetCommand, Plain, Misses, GET_ORDER, Fetch, Brings, Position;
    if i == |GET_ORDER| {
      noise, later := BringsNothing(script, wire);
    } else {
      var f := GET_ORDER[i];
      FetchOne(script, i, raw, sent);
      var (answer, used) := Answered(script, GetCheck(f));
      AnswerExact(script, f, answer.value);
      var rest, more, longer := After(script, used), raw[f := answer.value], sent + Repeated(GetCommand(f), used);
      OneMoreField(raw, i, answer.value);
      FetchKeeps(rest, i + 1, more, longer, wire);
      assert wire[f] == answer.value;
      ReplyToGet(wire, f);
      noise, later := FetchShape(rest, i + 1, more, longer, wire);
      BringsOne(script, wire, i, noise, later);
      noise := noise[i := script[..Misses(script, RETRIES)]];
    }
  }

  lemma Around<T>(s: seq<T>, k: nat)
    requires k < |s|
    ensures s == s[..k] + [s[k]] + s[k + 1..]
  {}

  lemma Regrouped<T>(a: seq<T>, b: seq<T>, c: seq<T>, d: seq<T>)
    ensures (a + b + c) + d == a + b + (c + d)
  {}

  lemma RepliesCons(store: Wire, noise: seq<Script>, i: nat)
    requires IsFull(store) && |noise| == |GET_ORDER| && i < |GET_ORDER|
    ensures Replies(store, noise, i)
         == noise[i] + [ReplyTo(store, GetCommand(GET_ORDER[i]))] + Replies(store, noise, i + 1)
  {
    hide GET_ORDER, ReplyTo, GetCommand;
  }

  lemma {:induction false} BringsOne(script: Script, store: Wire, i: nat, others: seq<Script>, later: Script)
    requires IsFull(store) && i < |GET_ORDER|
    requires var k := Misses(script, RETRIES);
      && k < |script| && k < RETRIES && script[k] == ReplyTo(store, GetCommand(GET_ORDER[i]))
      && Brings(After(script, k + 1), store, i + 1, others, later)
    ensures i < |others| && Brings(script, store, i, others[i := script[..Misses(script, RETRIES)]], later)
  {
    hide GET_ORDER, ReplyTo, GetCommand, Misses, Tolerable, Replies, NoAnswers, IsFull;
    var k := Misses(script, RETRIES);
    NothingEndsBefore(script, k);
    TolerableWith(others, i, script[..k]);
    var noise := others[i := script[..k]];
    assert noise[i + 1..] == others[i + 1..];
    RepliesDespite(store, noise, others, i + 1);
    RepliesCons(store, noise, i);
    assert After(script, k + 1) == script[k + 1..];
    Around(script, k);
    Regrouped(script[..k], [script[k]], Replies(store, noise, i + 1), later);
  }

  lemma TolerableWith(others: seq<Script>, i: nat, replies: Script)
    requires Tolerable(others) && i < |GET_ORDER| && NoAnswers(replies) && |replies| < RETRIES
    ensures |others| == |GET_ORDER| && Tolerable(others[i := replies])
  {
    hide GET_ORDER, NoAnswers;
  }

  lemma BringsNothing(script: Script, store: Wire) returns (noise: seq<Script>, later: Script)
    requires IsFull(store)
    ensures Brings(script, store, |GET_ORDER|, noise, later)
  {
    noise := seq(|GET_ORDER|, _ => []);
    later := script;
    hide GET_ORDER;
    assert [] + script == script;
  }

  lemma NothingEndsBefore(script: Script, k: nat)
    requires k < |script| && k == Misses(script, RETRIES)
    ensures NoAnswers(script[..k])
  {
    hide Ends;
    MissesFirst(script, RETRIES);
    forall i | 0 <= i < k
      ensures !Ends(script[..k][i])
    {
      assert script[i] == ReplyAt(script, i);
    }
  }

  /**
   * Over any network and with any replies: the strings read are `wire` iff all of them are plain
   * and the receives that end a wait begin with the reply that carries each one behind its token,
   * in table order, with at most four failed receives before each.
   */
  lemma FetchExact(script: Script, wire: Wire)
    ensures Fetch(script, 0, map[], []).wire == Ok(wire)
        <==> IsFull(wire) && AllPlain(wire) && InOrder(script, wire)
  {
    hide Fetch, Replies, ReadSoFar, Plain, Tolerable, GET_ORDER, Position;
    if Fetch(script, 0, map[], []).wire == Ok(wire) {
      FetchKeeps(script, 0, map[], [], wire);
      var noise, later := FetchShape(script, 0, map[], [], wire);
      forall f: Field
        ensures Plain(wire[f])
      {
        assert GET_ORDER[Position(f)] == f;
      }
    }
    if IsFull(wire) && AllPlain(wire) && InOrder(script, wire) {
      var noise, later :| Brings(script, wire, 0, noise, later);
      NothingRead(wire);
      FetchReplies(wire, noise, 0, [], later);
    }
  }

  /** The reply carries a value behind the token of the setting. */
  ghost predicate Carries(reply: string, f: Field) {
    exists v :: Plain(v) && reply == "A" + v + "|" + GetCheck(f)
  }

  /**
   * Every receive that ends a wait is the module's reply to one of the get commands, or carries
   * no get command's token, like a reply to another command that nobody has received: replies
   * may come late, repeatedly, in another order, or not at all.
   */
  ghost predicate Genuine(script: Script, store: Wire)
    requires IsFull(store)
  {
    forall r :: r in script && Ends(r) ==>
      (exists f: Field :: r == ReplyTo(store, GetCommand(f))) || forall f: Field :: !Carries(r, f)
  }

  lemma {:induction false} RepliesContain(wire: Wire, noise: seq<Script>, i: nat, f: Field)
    requires IsFull(wire) && |noise| == |GET_ORDER| && i <= Position(f)
    ensures ReplyTo(wire, GetCommand(f)) in Replies(wire, noise, i)
    decreases |GET_ORDER| - i
  {
    hide ReplyTo, GetCommand, GET_ORDER, Position;
    assert GET_ORDER[Position(f)] == f;
    if i < Position(f) {
      RepliesContain(wire, noise, i + 1, f);
    }
  }

  /** The only reply that carries a setting's token is the module's own. */
  lemma GenuineValue(script: Script, store: Wire, f: Field, v: string)
    requires IsFull(store) && Genuine(script, store)
    requires Plain(v) && "A" + v + "|" + GetCheck(f) in script
    ensures v == store[f]
  {
    hide GetCheck, ReplyTo, GetCommand, Plain, IsAscii;
    var reply := "A" + v + "|" + GetCheck(f);
    assert Carries(reply, f) && Ends(reply);
    var g: Field :| reply == ReplyTo(store, GetCommand(g));
    ReplyToGet(store, g);
    SameReply(v, GetCheck(f), store[g], GetCheck(g));
    ChecksDistinct(f, g);
  }

  /**
   * What the check tokens achieve: over any network that brings the module's own replies, however
   * late, often or out of order, with others between them, a reading that succeeds gives every
   * field the module's own value. It succeeds iff every value is plain and the first replies are
   * one to each setting, in table order, with at most four failed receives before each.
   */
  lemma {:induction false} GetGenuine(script: Script, store: Wire)
    requires IsFull(store) && Genuine(script, store)
    ensures var wire := Fetch(script, 0, map[], []).wire;
      && (wire.Ok? ==> wire.value == store)
      && (wire.Ok? <==> AllPlain(store) && InOrder(script, store))
  {
    hide Fetch, Replies, Plain, Genuine, GET_ORDER, Position, ReplyTo, GetCommand, GetCheck, NoAnswers;
    FetchExact(script, store);
    if Fetch(script, 0, map[], []).wire.Ok? {
      var wire := Fetch(script, 0, map[], []).wire.value;
      FetchExact(script, wire);
      var noise, later :| Brings(script, wire, 0, noise, later);
      forall f: Field
        ensures wire[f] == store[f]
      {
        RepliesContain(wire, noise, 0, f);
        ReplyToGet(wire, f);
        GenuineValue(script, store, f, wire[f]);
      }
      assert wire == store;
    }
  }

  /**
   * An unread reply that does not carry the token of the next setting fails the reading, such as
   * the one to a login or set command of a save just before on the same connection.
   */
  lemma UnreadReplyFails(reply: string, i: nat, raw: Wire, sent: seq<string>, rest: Script)
    requires i < |GET_ORDER| && Ends(reply) && !Carries(reply, GET_ORDER[i])
    ensures Fetch([reply] + rest, i, raw, sent).wire.Err?
  {
    hide Fetch, GET_ORDER, GetCheck, Ends, Plain, Answered, Misses, Repeated, GetCommand;
    var script := [reply] + rest;
    if Fetch(script, i, raw, sent).wire.Ok? {
      FetchOne(script, i, raw, sent);
      var answer := Answered(script, GetCheck(GET_ORDER[i])).0;
      AnswerExact(script, GET_ORDER[i], answer.value);
      MissesUnique(script, RETRIES, 0);
    }
  }

  /**
   * A reply that comes late comes twice, as the request was sent again: the surplus one is then
   * the first answer to the next request, which fails for its token.
   */
  lemma {:induction false} ResentReplyFails(store: Wire, i: nat, raw: Wire, sent: seq<string>, rest: Script)
    requires IsFull(store) && i + 1 < |GET_ORDER| && Plain(store[GET_ORDER[i]])
    ensures var reply := ReplyTo(store, GetCommand(GET_ORDER[i]));
      && reply != ""
      && Fetch(["", reply, reply] + rest, i, raw, sent).wire == Err(UnexpectedReply(reply[1..]))
  {
    hide GetCheck, CodeOf, GET_ORDER, ReplyTo, GetCommand, Answered, After, Repeated, Plain, IsAnswer;
    var f, g := GET_ORDER[i], GET_ORDER[i + 1];
    var reply := ReplyTo(store, GetCommand(f));
    ReplyToGet(store, f);
    CheckIsPlain(f);
    var next := [reply] + rest;
    var script := ["", reply, reply] + rest;
    assert script == [""] + ["A" + store[f] + "|" + GetCheck(f)] + next;
    NoiseOfOne();
    NoisyAnswer([""], store[f], GetCheck(f), next);
    GetOrderNext(i);
    WrongToken(store[f], f, g, rest);
  }

  lemma NoiseOfOne()
    ensures NoAnswers([""]) && |[""]| < RETRIES
  {}

  lemma GetOrderNext(i: nat)
    requires i + 1 < |GET_ORDER|
    ensures GET_ORDER[i] != GET_ORDER[i + 1]
  {
    GetOrderHasNoRepeats();
  }

  lemma WrongToken(value: string, f: Field, g: Field, rest: Script)
    requires Plain(value) && f != g
    ensures var reply := "A" + value + "|" + GetCheck(f);
      Answered([reply] + rest, GetCheck(g)) == (Err(UnexpectedReply(reply[1..])), 1)
  {
    hide GetCheck, IsAscii, ValueIn;
    var reply := "A" + value + "|" + GetCheck(f);
    CheckIsPlain(f);
    CheckIsPlain(g);
    ReplyAscii(value, GetCheck(f));
    ReplyBody(value, GetCheck(f));
    FoundByToken(value, GetCheck(f), GetCheck(g));
    if GetCheck(f) == GetCheck(g) {
      ChecksDistinct(f, g);
    }
    assert ([reply] + rest)[0] == reply;
    MissesUnique([reply] + rest, RETRIES, 0);
  }

  // ---- saving and reading back ----

  /** Everything that saving a valid configuration emits, over both connections. */
  function Emitted(wire: Wire, mac: string, broadcast: bool): seq<string>
    requires IsFull(wire)
  {
    ConfigPass(wire) + if broadcast then [] else ["W" + mac] + ConfigPass(wire)
  }

  /** Saving has the effect of one pass, with or without the fallback. */
  lemma EmittedEffect(store: Wire, wire: Wire, mac: string, broadcast: bool)
    requires IsFull(wire) && Framed(wire)
    ensures ObeyAll(store, Emitted(wire, mac, broadcast)) == ObeyAll(store, ConfigPass(wire))
  {
    hide ObeyAll, ConfigPass;
    var pass := ConfigPass(wire);
    if broadcast {
      assert pass + [] == pass;
    } else {
      PassWrites(store, wire);
      var once := ObeyAll(store, pass);
      ObeyAppend(store, pass, ["W" + mac] + pass);
      ObeyAppend(once, ["W" + mac], pass);
      ObeyOne(once, "W" + mac);
    }
  }

  /** First one pass, then, unless everything was broadcast already, a select and the pass again. */
  lemma EmittedIs(wire: Wire, mac: string)
    requires IsFull(wire)
    ensures Emitted(wire, mac, true) == ConfigPass(wire)
    ensures Emitted(wire, mac, false) == ConfigPass(wire) + ["W" + mac] + ConfigPass(wire)
  {
    hide ConfigPass;
  }

  /**
   * Saving a valid configuration to a module in any state: afterwards all writable settings are
   * the configuration's and in effect, the other two are as before, nothing is pending and no
   * session is open.
   */
  lemma {:induction false} SaveTakesEffect(c: Settings, mac: string, broadcast: bool, u: Unit)
    requires IsConfig(c) && IsValid(c)
    ensures IsFull(WireOf(c))
    ensures var wire := WireOf(c);
      var v, before := ServeAll(u, Emitted(wire, mac, broadcast)), u.current + u.pending;
      && v.pending == map[] && !v.open
      && (forall f: Field :: f != MacAddress && f != Dhcp ==> f in v.current && v.current[f] == wire[f])
      && (MacAddress in v.current <==> MacAddress in before) && (Dhcp in v.current <==> Dhcp in before)
      && (MacAddress in before ==> v.current[MacAddress] == before[MacAddress])
      && (Dhcp in before ==> v.current[Dhcp] == before[Dhcp])
      && (u.pending == map[] ==> v.current == ObeyAll(u.current, Emitted(wire, mac, broadcast)))
  {
    hide ObeyAll, ConfigPass, WireOf, IsValid, IsConfig, ServeAll, Written, SET_ORDER, Writable, Emitted;
    ValidIsPlain(c);
    var wire, before := WireOf(c), u.current + u.pending;
    EmittedServed(u, wire, mac, broadcast);
    PassWrites(before, wire);
    PassEffect(before, wire);
    WritableIs();
    var v, once := ServeAll(u, Emitted(wire, mac, broadcast)), ObeyAll(before, ConfigPass(wire));
    assert v == Unit(once, map[], false);
    forall f: Field
      ensures if f == MacAddress || f == Dhcp
              then (f in v.current <==> f in before) && (f in before ==> v.current[f] == before[f])
              else f in v.current && v.current[f] == wire[f]
    {
      assert Writable(f) <==> f != MacAddress && f != Dhcp;
    }
    if u.pending == map[] {
      EmittedEffect(u.current, wire, mac, broadcast);
      assert before == u.current;
    }
  }

  lemma {:induction false} EmittedServed(u: Unit, wire: Wire, mac: string, broadcast: bool)
    requires IsFull(wire) && Framed(wire)
    ensures ServeAll(u, Emitted(wire, mac, broadcast))
         == Unit(u.current + u.pending + Written(wire, SET_ORDER), map[], false)
  {
    hide ConfigPass, ServeAll, Written, SET_ORDER;
    var pass, added := ConfigPass(wire), Written(wire, SET_ORDER);
    PassServed(u, wire);
    if broadcast {
      assert pass + [] == pass;
    } else {
      var once := Unit(u.current + u.pending + added, map[], false);
      PassServed(once, wire);
      Again(u.current + u.pending, added);
      assert ServeAll(once, pass) == once;
      SelectServed(once, mac);
      ServeAppend(once, ["W" + mac], pass);
      ServeAppend(u, pass, ["W" + mac] + pass);
    }
  }

  lemma Again(before: Wire, added: Wire)
    ensures before + added + map[] + added == before + added
  {}

  /** A select outside a session changes nothing. */
  lemma SelectServed(u: Unit, mac: string)
    requires !u.open
    ensures ServeAll(u, ["W" + mac]) == u
  {
    assert ("W" + mac)[0] == 'W';
    ServeOne(u, "W" + mac);
  }

  lemma WritableIs()
    ensures forall f: Field :: Writable(f) <==> f != MacAddress && f != Dhcp
  {}

  /** `c` with the two settings that saving does not write as the module has them. */
  function Kept(c: Settings, store: Wire): Settings
    requires IsFull(store) && Parse(KindOf(Dhcp), store[Dhcp]).Some?
  {
    c[MacAddress := Str(store[MacAddress])][Dhcp := Parse(KindOf(Dhcp), store[Dhcp]).value]
  }

  /**
   * Saving a valid configuration to a module and reading it back, whatever the module held
   * before. Two settings are not written: the reading succeeds iff no reply is preceded by five
   * or more failed receives, the module's own `mac_address` and `dhcp` are plain, and that `dhcp`
   * is the code of a known value. It then gives the saved configuration, but for these two.
   */
  lemma {:induction false} SaveThenGet(
    c: Settings, mac: string, broadcast: bool, store: Wire, noise: seq<Script>)
    requires IsConfig(c) && IsValid(c) && IsFull(store) && IsNoise(noise)
    ensures IsFull(WireOf(c))
    ensures var held := ObeyAll(store, Emitted(WireOf(c), mac, broadcast));
      && IsFull(held)
      && var result := GetResult(Replies(held, noise, 0));
      && (result.Ok? <==> && Tolerable(noise) && Plain(store[MacAddress]) && Plain(store[Dhcp])
                          && Parse(KindOf(Dhcp), store[Dhcp]).Some?)
      && (result.Ok? ==> result.value == Kept(c, store))
  {
    hide Fetch, Replies, Reading, Tolerable, ObeyAll, Emitted, WireOf, IsValid, IsNoise, Plain, Parse;
    HeldAfterSave(c, mac, broadcast, store);
    GetExact(ObeyAll(store, Emitted(WireOf(c), mac, broadcast)), noise);
  }

  /** What a module holds after saving, and what its strings are read as. */
  lemma HeldAfterSave(c: Settings, mac: string, broadcast: bool, store: Wire)
    requires IsConfig(c) && IsValid(c) && IsFull(store)
    ensures IsFull(WireOf(c))
    ensures var held := ObeyAll(store, Emitted(WireOf(c), mac, broadcast));
      && IsFull(held)
      && (AllPlain(held) <==> Plain(store[MacAddress]) && Plain(store[Dhcp]))
      && (Reading(held).Ok? <==> Parse(KindOf(Dhcp), store[Dhcp]).Some?)
      && (Reading(held).Ok? ==> Reading(held).value == Kept(c, store))
  {
    hide Reading, ObeyAll, Emitted, WireOf, IsValid, Plain, Parse;
    ValidIsPlain(c);
    hide IsConfig;
    var wire := WireOf(c);
    EmittedEffect(store, wire, mac, broadcast);
    PassWrites(store, wire);
    var held := ObeyAll(store, Emitted(wire, mac, broadcast));
    assert AllPlain(held) <==> Plain(store[MacAddress]) && Plain(store[Dhcp]) by {
      assert held[MacAddress] == store[MacAddress] && held[Dhcp] == store[Dhcp];
    }
    HeldReads(c, store, held);
  }

  /**
   * Over any network that brings the module's own replies, reading after saving never gives a
   * wrong configuration: it gives the saved one, but for the two settings that are not written,
   * or fails.
   */
  lemma {:induction false} SaveThenGetGenuine(c: Settings, mac: string, broadcast: bool, store: Wire, script: Script)
    requires IsConfig(c) && IsValid(c) && IsFull(store)
    ensures IsFull(WireOf(c))
    ensures var held := ObeyAll(store, Emitted(WireOf(c), mac, broadcast));
      && IsFull(held)
      && var result := GetResult(script);
      Genuine(script, held) ==>
        && (result.Ok? <==> && InOrder(script, held) && Plain(store[MacAddress]) && Plain(store[Dhcp])
                            && Parse(KindOf(Dhcp), store[Dhcp]).Some?)
        && (result.Ok? ==> result.value == Kept(c, store))
  {
    hide Fetch, Replies, Reading, ObeyAll, Emitted, WireOf, IsValid, Plain, Genuine, InOrder, Parse;
    HeldAfterSave(c, mac, broadcast, store);
    var held := ObeyAll(store, Emitted(WireOf(c), mac, broadcast));
    if Genuine(script, held) {
      GetGenuine(script, held);
    }
  }

  lemma HeldReads(c: Settings, store: Wire, held: Wire)
    requires IsConfig(c) && IsFull(store) && IsFull(held)
    requires forall f: Field :: f in WireOf(c) && held[f] == if Writable(f) then WireOf(c)[f] else store[f]
    ensures Reading(held).Ok? <==> Parse(KindOf(Dhcp), store[Dhcp]).Some?
    ensures Reading(held).Ok? ==> Reading(held).value == Kept(c, store)
  {
    hide WireOf, Parse, ReadAll, FIELDS, Reading;
    ReadingExact(held);
    assert Readable(held, Dhcp) <==> Parse(KindOf(Dhcp), store[Dhcp]).Some?;
    forall f: Field
      ensures f in FIELDS && (f != Dhcp ==> Readable(held, f))
      ensures Writable(f) ==> ReadField(held, f) == c[f]
    {
      EveryField(f);
      ReadBack(c, f);
      FreeTextReads(held[f]);
    }
    if Reading(held).Ok? {
      FreeTextReads(held[MacAddress]);
      ReadingIs(held);
      ReadAllIs(held, Kept(c, store));
    }
  }

  lemma FreeTextReads(text: string)
    ensures Parse(KindOf(MacAddress), text) == Some(Str(text))
  {}

  lemma ReadAllIs(raw: Wire, c: Settings)
    requires forall f: Field :: f in FIELDS && f in c && ReadField(raw, f) == c[f]
    ensures ReadAll(raw) == c
  {
    hide FIELDS, ReadField;
  }

  // ---- the device ----

  datatype SaveError = Invalid(problems: seq<Problem>) | MacNotAscii

  /** The commands before the first that cannot be encoded. */
  function AsciiPrefix(commands: seq<string>): seq<string> {
    if commands == [] || !IsAscii(commands[0]) then [] else [commands[0]] + AsciiPrefix(commands[1..])
  }

  lemma {:induction false} AsciiPrefixIs(commands: seq<string>, k: nat)
    requires k <= |commands| && AllAscii(commands[..k])
    requires k < |commands| ==> !IsAscii(commands[k])
    ensures AsciiPrefix(commands) == commands[..k]
    decreases k
  {
    hide IsAscii;
    if k > 0 {
      assert commands[..k][0] == commands[0];
      assert commands[..k][1..] == commands[1..][..k - 1];
      AsciiPrefixIs(commands[1..], k - 1);
    }
  }

  lemma MacAscii(mac: string)
    ensures IsAscii("W" + mac) <==> IsAscii(mac)
  {
    assert IsAscii("W");
    AsciiAppend("W", mac);
  }

  class HwVxDevice {
    const net: HwVxNetworking
    const mac: string
    const broadcast: bool

    constructor (net: HwVxNetworking, mac: string, broadcast: bool)
      ensures this.net == net && this.mac == mac && this.broadcast == broadcast
    {
      this.net, this.mac, this.broadcast := net, mac, broadcast;
    }

    method GetConfig() returns (result: Result<Settings, GetError>)
      modifies net
      ensures result == GetResult(old(net.inbox))
      ensures net.sent == old(net.sent) + Fetch(old(net.inbox), 0, map[], []).sent
      ensures net.inbox == Fetch(old(net.inbox), 0, map[], []).rest
    {
      hide GET_ORDER, GetCheck, CodeOf, Answered, Reading, Repeated, IsAscii;
      ghost var sent: seq<string> := [];
      var raw: Wire := map[];
      for i := 0 to |GET_ORDER|
        invariant Fetch(net.inbox, i, raw, sent) == Fetch(old(net.inbox), 0, map[], [])
        invariant net.sent == old(net.sent) + sent
      {
        var f := GET_ORDER[i];
        ghost var script := net.inbox;
        GetCommandAscii(f);
        var answer := net.RequestSingle("G" + CodeOf(f), GetCheck(f));
        sent := sent + Repeated(GetCommand(f), Answered(script, GetCheck(f)).1);
        if answer.Err? {
          return Err(Lost(answer.error));
        }
        raw := raw[f := answer.value];
      }
      var config := FromWire(raw);
      if config.Err? {
        return Err(Unreadable(config.error));
      }
      return Ok(config.value);
    }

    /** The pass is sent up to the first command that cannot be encoded. */
    static method SendConfigPass(net: HwVxNetworking, wire: Wire) returns (ok: bool)
      requires IsFull(wire)
      modifies net`sent
      ensures net.sent == old(net.sent) + AsciiPrefix(ConfigPass(wire))
      ensures ok <==> AllAscii(ConfigPass(wire))
    {
      hide SET_ORDER, SetCommand, IsAscii, AsciiPrefix, SetCheck, CodeOf;
      LoginRebootAscii();
      ghost var pass := ConfigPass(wire);
      ok := net.Send("L");
      var commands := SetCommands(wire, SET_ORDER);
      for i := 0 to |SET_ORDER|
        invariant net.sent == old(net.sent) + pass[..i + 1]
        invariant AllAscii(pass[..i + 1])
      {
        var f := SET_ORDER[i];
        assert pass[i + 1] == SetCommand(f, wire[f]);
        assert pass[..i + 2] == pass[..i + 1] + [pass[i + 1]];
        ok := net.Send(SetCommand(f, wire[f]));
        if !ok {
          AsciiPrefixIs(pass, i + 1);
          return;
        }
      }
      ok := net.Send("E");
      assert pass == pass[..|SET_ORDER| + 1] + ["E"];
      assert pass[..|pass|] == pass;
      AsciiPrefixIs(pass, |pass|);
    }

    /** `fallback` is what goes out over the second, broadcasting connection. */
    method SaveConfig(c: Settings) returns (error: Option<SaveError>, fallback: seq<string>)
      requires IsConfig(c)
      modifies net`sent
      ensures IsFull(WireOf(c))
      ensures error == None <==> IsValid(c) && (broadcast || IsAscii(mac))
      ensures error == None ==> net.sent + fallback == old(net.sent) + Emitted(WireOf(c), mac, broadcast)
      ensures !IsValid(c) ==>
                && net.sent == old(net.sent) && fallback == []
                && error.Some? && error.value.Invalid?
                && forall p: Problem :: p in error.value.problems <==> Afflicts(p, c)
      ensures IsValid(c) ==>
                && net.sent == old(net.sent) + ConfigPass(WireOf(c))
                && (error != None ==> error == Some(MacNotAscii) && fallback == [])
    {
      hide ConfigPass, IsValid, IsAscii;
      forall f: Field
        ensures f in WireOf(c)
      {
        EveryField(f);
      }
      hide WireOf;
      fallback := [];
      var wire := ToWire(c);
      if wire.Err? {
        return Some(Invalid(wire.error)), [];
      }
      PassIsAscii(c);
      AsciiPrefixIs(ConfigPass(wire.value), |ConfigPass(wire.value)|);
      var ok := SendConfigPass(net, wire.value);
      if broadcast {
        return None, [];
      }
      var other := new HwVxNetworking([]);
      MacAscii(mac);
      ok := other.Send("W" + mac);
      if !ok {
        return Some(MacNotAscii), [];
      }
      ok := SendConfigPass(other, wire.value);
      return None, other.sent;
    }
  }
}
