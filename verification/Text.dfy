/** The text forms that the HW-VX protocol carries: decimal numbers, dotted quads, separated parts. */
module Text {
  import opened Wrappers

  predicate IsAscii(s: string) {
    forall i :: 0 <= i < |s| ==> s[i] < '\U{80}'
  }

  lemma AsciiIs(s: string)
    ensures IsAscii(s) <==> forall c :: c in s ==> c as int < 128
  {
    assert forall i :: 0 <= i < |s| ==> s[i] in s;
  }

  lemma AsciiAppend(a: string, b: string)
    ensures IsAscii(a + b) <==> IsAscii(a) && IsAscii(b)
  {
    assert forall i :: 0 <= i < |a| ==> (a + b)[i] == a[i];
    assert forall i :: 0 <= i < |b| ==> (a + b)[|a| + i] == b[i];
  }

  // ---- parts ----

  function IndexOf(s: string, sep: char): (i: nat)
    requires sep in s
    ensures i < |s| && s[i] == sep && sep !in s[..i]
  {
    if s[0] == sep then 0
    else
      assert s == [s[0]] + s[1..];
      IndexOf(s[1..], sep) + 1
  }

  /** `s.split(sep)` */
  function Split(s: string, sep: char): (parts: seq<string>)
    ensures parts != [] && (|parts| == 1 <==> sep !in s)
    decreases |s|
  {
    if sep !in s then [s]
    else
      var i := IndexOf(s, sep);
      [s[..i]] + Split(s[i + 1..], sep)
  }

  lemma SplitCons(a: string, b: string, sep: char)
    requires sep !in a
    ensures Split(a + [sep] + b, sep) == [a] + Split(b, sep)
  {
    var s := a + [sep] + b;
    assert s[|a|] == sep;
    var i := IndexOf(s, sep);
    assert s[..i] == a && s[i + 1..] == b;
  }

  /** A text splits in two exactly when it is two separator-free parts around one separator. */
  lemma SplitInTwo(s: string, sep: char, a: string, b: string)
    ensures Split(s, sep) == [a, b] <==> sep !in a && sep !in b && s == a + [sep] + b
  {
    if sep !in a && sep !in b && s == a + [sep] + b {
      SplitCons(a, b, sep);
    }
    if Split(s, sep) == [a, b] {
      var i := IndexOf(s, sep);
      var rest := s[i + 1..];
      assert [s[..i]] + Split(rest, sep) == [a, b];
      assert a == ([s[..i]] + Split(rest, sep))[0] == s[..i];
      assert Split(rest, sep) == ([s[..i]] + Split(rest, sep))[1..] == [b];
      assert s == s[..i] + [s[i]] + s[i + 1..];
    }
  }

  // ---- decimal numbers ----

  predicate IsDigit(c: char) {
    '0' <= c <= '9'
  }

  function DigitOf(n: nat): (c: char)
    requires n < 10
    ensures IsDigit(c)
  {
    "0123456789"[n]
  }

  function DigitValue(c: char): (n: nat)
    requires IsDigit(c)
    ensures n < 10
  {
    (c as int) - ('0' as int)
  }

  lemma DigitRoundTrip(n: nat)
    requires n < 10
    ensures DigitValue(DigitOf(n)) == n
  {}

  /** `str(n)` */
  function PrintNat(n: nat): string {
    if n < 10 then [DigitOf(n)] else PrintNat(n / 10) + [DigitOf(n % 10)]
  }

  function PrintInt(n: int): string {
    if n < 0 then "-" + PrintNat(-n) else PrintNat(n)
  }

  predicate AllDigits(s: string) {
    forall i :: 0 <= i < |s| ==> IsDigit(s[i])
  }

  /** The number that a string of digits, possibly grouped by underscores, denotes. */
  function DigitsValue(s: string): nat {
    if s == [] then 0
    else
      var n, c := |s| - 1, s[|s| - 1];
      if IsDigit(c) then 10 * DigitsValue(s[..n]) + DigitValue(c) else DigitsValue(s[..n])
  }

  /** Digits with single underscores between them. */
  predicate Grouped(s: string) {
    && s != [] && IsDigit(s[0]) && IsDigit(s[|s| - 1])
    && (forall i :: 0 <= i < |s| ==> IsDigit(s[i]) || s[i] == '_')
    && (forall i :: 0 < i < |s| && s[i] == '_' ==> s[i - 1] != '_')
  }

  predicate IsSpace(c: char) {
    c == ' ' || '\t' <= c <= '\r'
  }

  function StripLeft(s: string): string {
    if s != [] && IsSpace(s[0]) then StripLeft(s[1..]) else s
  }

  function StripRight(s: string): string {
    if s != [] && IsSpace(s[|s| - 1]) then StripRight(s[..|s| - 1]) else s
  }

  /** `int(text)` on ASCII text; `None` is its `ValueError`. */
  function ParseInt(text: string): Option<int> {
    var s := StripRight(StripLeft(text));
    var signed := s != [] && (s[0] == '-' || s[0] == '+');
    var digits := if signed then s[1..] else s;
    if !Grouped(digits) then None
    else
      var n: int := DigitsValue(digits);
      Some(if signed && s[0] == '-' then -n else n)
  }

  lemma {:induction false} PrintNatShape(n: nat)
    ensures PrintNat(n) != [] && AllDigits(PrintNat(n))
    ensures DigitsValue(PrintNat(n)) == n
    ensures PrintNat(n)[0] == '0' ==> n == 0 && PrintNat(n) == "0"
  {
    var s := PrintNat(n);
    if n < 10 {
      DigitRoundTrip(n);
      assert s[..0] == [];
    } else {
      PrintNatShape(n / 10);
      DigitRoundTrip(n % 10);
      assert s[..|s| - 1] == PrintNat(n / 10);
    }
  }

  lemma PrintParseInt(n: int)
    ensures ParseInt(PrintInt(n)) == Some(n)
  {
    var m := if n < 0 then -n else n;
    PrintNatShape(m);
    hide PrintNat, DigitsValue, AllDigits, ParseInt;
    if n < 0 {
      ParseNegative(PrintNat(m));
    } else {
      ParseDigits(PrintNat(m));
    }
  }

  lemma ParseDigits(digits: string)
    requires digits != [] && AllDigits(digits)
    ensures ParseInt(digits) == Some(DigitsValue(digits))
  {
    hide AllDigits, DigitsValue, StripLeft, StripRight, Grouped, IsSpace;
    DigitsEnds(digits);
    StripNothing(digits);
  }

  lemma ParseNegative(digits: string)
    requires digits != [] && AllDigits(digits)
    ensures ParseInt("-" + digits) == Some(-(DigitsValue(digits) as int))
  {
    hide AllDigits, DigitsValue, StripLeft, StripRight, Grouped, IsSpace;
    var s := "-" + digits;
    DigitsEnds(digits);
    assert s[1..] == digits && s[|s| - 1] == digits[|digits| - 1];
    assert !IsSpace('-') by { MinusIsNoSpace(); }
    StripNothing(s);
  }

  lemma MinusIsNoSpace()
    ensures !IsSpace('-')
  {}

  lemma DigitsEnds(s: string)
    requires s != [] && AllDigits(s)
    ensures Grouped(s) && s[0] != '-' && s[0] != '+'
    ensures !IsSpace(s[0]) && !IsSpace(s[|s| - 1])
  {}

  lemma StripNothing(s: string)
    requires s != [] && !IsSpace(s[0]) && !IsSpace(s[|s| - 1])
    ensures StripLeft(s) == s && StripRight(s) == s
  {}

  /** The value of a text of digits, read from its end; underscores do not count. */
  lemma DigitsValueIs(s: string, c: char)
    ensures DigitsValue("") == 0
    ensures '0' <= c <= '9' ==> DigitsValue(s + [c]) == 10 * DigitsValue(s) + (c as int - '0' as int)
    ensures c == '_' ==> DigitsValue(s + [c]) == DigitsValue(s)
  {
    assert (s + [c])[..|s|] == s;
  }

  predicate AllBlank(s: string) {
    forall i :: 0 <= i < |s| ==> s[i] == ' ' || '\t' <= s[i] <= '\r'
  }

  /** Digits, at least one, and single underscores, each of them between two digits. */
  predicate Numeral(s: string) {
    && s != []
    && forall i {:trigger s[i]} :: 0 <= i < |s| ==>
         || '0' <= s[i] <= '9'
         || (s[i] == '_' && 0 < i < |s| - 1 && '0' <= s[i - 1] <= '9' && '0' <= s[i + 1] <= '9')
  }

  predicate IsSign(s: string) {
    s == "" || s == "+" || s == "-"
  }

  /** The text is a number with its sign, between blanks. */
  predicate Spells(text: string, before: string, sign: string, body: string, after: string) {
    AllBlank(before) && IsSign(sign) && Numeral(body) && AllBlank(after) && text == before + sign + body + after
  }

  lemma NumeralIsGrouped(s: string)
    ensures Numeral(s) <==> Grouped(s)
  {
    if Numeral(s) {
      assert IsDigit(s[0]) && IsDigit(s[|s| - 1]);
    }
  }

  lemma StripLeftSplits(s: string) returns (before: string)
    ensures AllBlank(before) && s == before + StripLeft(s)
    ensures StripLeft(s) != [] ==> !IsSpace(StripLeft(s)[0])
    decreases |s|
  {
    before := "";
    if s != [] && IsSpace(s[0]) {
      before := StripLeftSplits(s[1..]);
      before := [s[0]] + before;
      assert s == [s[0]] + s[1..];
    }
  }

  lemma StripRightSplits(s: string) returns (after: string)
    ensures AllBlank(after) && s == StripRight(s) + after
    decreases |s|
  {
    after := "";
    if s != [] && IsSpace(s[|s| - 1]) {
      after := StripRightSplits(s[..|s| - 1]);
      after := after + [s[|s| - 1]];
      assert s == s[..|s| - 1] + [s[|s| - 1]];
    }
  }

  lemma {:induction false} StripLeftOf(before: string, s: string)
    requires AllBlank(before) && s != [] && !IsSpace(s[0])
    ensures StripLeft(before + s) == s
    decreases |before|
  {
    if before == [] {
      assert before + s == s;
    } else {
      assert (before + s)[1..] == before[1..] + s;
      StripLeftOf(before[1..], s);
    }
  }

  lemma {:induction false} StripRightOf(s: string, after: string)
    requires AllBlank(after) && s != [] && !IsSpace(s[|s| - 1])
    ensures StripRight(s + after) == s
    decreases |after|
  {
    var n := |after|;
    if n == 0 {
      assert s + after == s;
    } else {
      assert (s + after)[..|s| + n - 1] == s + after[..n - 1];
      StripRightOf(s, after[..n - 1]);
    }
  }

  lemma NumeralEnds(sign: string, body: string)
    requires IsSign(sign) && Numeral(body)
    ensures var s := sign + body;
      && s != [] && !IsSpace(s[0]) && !IsSpace(s[|s| - 1])
      && (s[0] == '-' <==> sign == "-") && (s[0] == '+' <==> sign == "+")
  {
    assert IsDigit(body[0]) && IsDigit(body[|body| - 1]);
  }

  /** A text reads as a number iff it spells that number. */
  lemma ParseIntExact(text: string, n: int)
    ensures ParseInt(text) == Some(n)
        <==> exists before, sign, body, after ::
               && Spells(text, before, sign, body, after)
               && n == if sign == "-" then -(DigitsValue(body) as int) else DigitsValue(body)
  {
    if ParseInt(text) == Some(n) {
      var before, sign, body, after := NumberSpelt(text);
      assert Spells(text, before, sign, body, after);
    }
    forall before, sign, body, after | Spells(text, before, sign, body, after)
      ensures ParseInt(text) == Some(if sign == "-" then -(DigitsValue(body) as int) else DigitsValue(body))
    {
      SpeltIsRead(text, before, sign, body, after);
    }
  }

  lemma NumberSpelt(text: string) returns (before: string, sign: string, body: string, after: string)
    requires ParseInt(text).Some?
    ensures Spells(text, before, sign, body, after)
    ensures ParseInt(text).value == if sign == "-" then -(DigitsValue(body) as int) else DigitsValue(body)
  {
    hide StripLeft, StripRight, Grouped, Numeral, DigitsValue;
    before := StripLeftSplits(text);
    var t := StripLeft(text);
    after := StripRightSplits(t);
    var s := StripRight(t);
    var signed := s != [] && (s[0] == '-' || s[0] == '+');
    sign := if signed then [s[0]] else "";
    body := if signed then s[1..] else s;
    NumeralIsGrouped(body);
    assert sign + body == s;
    assert text == before + (s + after) == before + sign + body + after;
  }

  lemma {:induction false} SpeltIsRead(text: string, before: string, sign: string, body: string, after: string)
    requires Spells(text, before, sign, body, after)
    ensures ParseInt(text) == Some(if sign == "-" then -(DigitsValue(body) as int) else DigitsValue(body))
  {
    hide StripLeft, StripRight, Grouped, Numeral, DigitsValue, IsSpace, AllBlank;
    NumeralIsGrouped(body);
    NumeralEnds(sign, body);
    var s := sign + body;
    assert text == before + (s + after);
    StripRightOf(s, after);
    assert (s + after)[0] == s[0];
    StripLeftOf(before, s + after);
    if sign == "" {
      assert s == body;
    } else {
      assert s[1..] == body;
    }
  }

  /** Only characters that a number may have, and at least one digit. */
  predicate LooksLikeNumber(text: string) {
    && (forall c :: c in text ==>
          '0' <= c <= '9' || c == '_' || c == '+' || c == '-' || c == ' ' || '\t' <= c <= '\r')
    && (exists c :: c in text && '0' <= c <= '9')
  }

  lemma NumberCharacters(text: string)
    requires ParseInt(text).Some?
    ensures LooksLikeNumber(text)
  {
    var before, sign, body, after := NumberSpelt(text);
    assert body[0] in text && '0' <= body[0] <= '9';
    assert forall c :: c in text ==> c in before || c in sign || c in body || c in after;
  }

  // ---- dotted quads ----

  type Octet = n: nat | n < 256

  datatype Ipv4 = Ipv4(a: Octet, b: Octet, c: Octet, d: Octet)

  function PrintIp(ip: Ipv4): string {
    PrintNat(ip.a) + "." + (PrintNat(ip.b) + "." + (PrintNat(ip.c) + "." + PrintNat(ip.d)))
  }

  /** One to three digits, no superfluous leading zero, at most 255. */
  predicate IsOctet(s: string) {
    && 1 <= |s| <= 3 && AllDigits(s)
    && (|s| > 1 ==> s[0] != '0')
    && DigitsValue(s) < 256
  }

  /** `IPv4Address(text)`; `None` is its `ValueError`. */
  function ParseIp(text: string): Option<Ipv4> {
    var p := Split(text, '.');
    if |p| == 4 && IsOctet(p[0]) && IsOctet(p[1]) && IsOctet(p[2]) && IsOctet(p[3]) then
      Some(Ipv4(DigitsValue(p[0]), DigitsValue(p[1]), DigitsValue(p[2]), DigitsValue(p[3])))
    else None
  }

  lemma PrintedOctet(n: Octet)
    ensures IsOctet(PrintNat(n)) && DigitsValue(PrintNat(n)) == n
    ensures '.' !in PrintNat(n)
  {
    PrintNatShape(n);
    if n >= 10 {
      var m := n / 10;
      assert |PrintNat(n)| == |PrintNat(m)| + 1;
      if m >= 10 {
        assert |PrintNat(m)| == |PrintNat(m / 10)| + 1 && m / 10 < 10;
      }
    }
  }

  lemma SplitFour(a: string, b: string, c: string, d: string)
    requires '.' !in a && '.' !in b && '.' !in c && '.' !in d
    ensures Split(a + "." + (b + "." + (c + "." + d)), '.') == [a, b, c, d]
  {
    hide Split;
    var u := c + "." + d;
    var v := b + "." + u;
    SplitCons(a, v, '.');
    SplitCons(b, u, '.');
    SplitCons(c, d, '.');
    SplitOne(d);
    assert [a] + ([b] + ([c] + [d])) == [a, b, c, d];
  }

  lemma SplitOne(d: string)
    requires '.' !in d
    ensures Split(d, '.') == [d]
  {}

  lemma {:induction false} CanonicalDigits(s: string)
    requires s != [] && AllDigits(s) && (|s| > 1 ==> s[0] != '0')
    ensures PrintNat(DigitsValue(s)) == s
    ensures |s| > 1 ==> DigitsValue(s) >= 10
  {
    hide PrintNat, DigitOf, DigitValue, IsDigit;
    var n := |s| - 1;
    var front, v := s[..n], DigitValue(s[n]);
    DigitOfValue(s[n]);
    assert s == front + [s[n]];
    if n == 0 {
      assert DigitsValue(front) == 0;
      PrintDigit(v);
    } else {
      var m := DigitsValue(front);
      CanonicalDigits(front);
      assert m != 0 by {
        if |front| == 1 {
          assert front[..0] == [];
          DigitOfValue(front[0]);
        }
      }
      PrintSnoc(m, v);
    }
  }

  lemma PrintDigit(v: nat)
    requires v < 10
    ensures PrintNat(v) == [DigitOf(v)]
  {}

  lemma PrintSnoc(m: nat, v: nat)
    requires m > 0 && v < 10
    ensures PrintNat(10 * m + v) == PrintNat(m) + [DigitOf(v)]
  {
    var n := 10 * m + v;
    assert n / 10 == m && n % 10 == v;
  }

  lemma DigitOfValue(c: char)
    requires IsDigit(c)
    ensures DigitOf(DigitValue(c)) == c
    ensures DigitValue(c) == 0 <==> c == '0'
  {}

  /** An integer is printed as its digits without a superfluous zero, behind a minus sign if it is negative. */
  lemma PrintIntIs(n: nat, s: string)
    ensures PrintInt(n) == s
        <==> && s != "" && (forall i :: 0 <= i < |s| ==> '0' <= s[i] <= '9')
             && (s[0] == '0' ==> s == "0") && DigitsValue(s) == n
    ensures n > 0 ==> PrintInt(-(n as int)) == "-" + PrintInt(n)
  {
    PrintNatShape(n);
    if s != "" && AllDigits(s) && (s[0] == '0' ==> s == "0") && DigitsValue(s) == n {
      CanonicalDigits(s);
    }
  }

  /** An address is printed as four decimal numbers with dots between them. */
  lemma PrintIpIs(ip: Ipv4)
    ensures PrintIp(ip) == PrintInt(ip.a) + "." + PrintInt(ip.b) + "." + PrintInt(ip.c) + "." + PrintInt(ip.d)
  {
    hide PrintNat;
  }

  lemma PrintOctet(s: string)
    requires IsOctet(s)
    ensures PrintNat(DigitsValue(s)) == s && '.' !in s
  {
    CanonicalDigits(s);
  }

  lemma SplitOfFour(text: string)
    requires |Split(text, '.')| == 4
    ensures var p := Split(text, '.');
      text == p[0] + "." + (p[1] + "." + (p[2] + "." + p[3]))
  {
    var p := Split(text, '.');
    var t1 := AfterFirst(text, '.');
    var t2 := AfterFirst(t1, '.');
    var t3 := AfterFirst(t2, '.');
    SplitFirst(text, '.');
    SplitFirst(t1, '.');
    SplitFirst(t2, '.');
    SplitOne(t3);
    hide Split, AfterFirst;
    assert p == [p[0]] + ([p[1]] + ([p[2]] + [t3]));
  }

  function AfterFirst(s: string, sep: char): string {
    if sep in s then s[IndexOf(s, sep) + 1..] else ""
  }

  lemma {:induction false} SplitFirst(s: string, sep: char)
    requires |Split(s, sep)| > 1
    ensures Split(s, sep) == [Split(s, sep)[0]] + Split(AfterFirst(s, sep), sep)
    ensures s == Split(s, sep)[0] + [sep] + AfterFirst(s, sep)
  {
    var i := IndexOf(s, sep);
    assert s == s[..i] + [s[i]] + s[i + 1..];
  }

  lemma PrintParseIp(ip: Ipv4)
    ensures ParseIp(PrintIp(ip)) == Some(ip)
  {
    hide IsOctet, PrintNat, DigitsValue, Split;
    PrintedOctet(ip.a);
    PrintedOctet(ip.b);
    PrintedOctet(ip.c);
    PrintedOctet(ip.d);
    SplitFour(PrintNat(ip.a), PrintNat(ip.b), PrintNat(ip.c), PrintNat(ip.d));
  }

  /** Only the printed form of an address is read as that address. */
  lemma ParseIpExact(text: string, ip: Ipv4)
    ensures ParseIp(text) == Some(ip) <==> text == PrintIp(ip)
  {
    if ParseIp(text) == Some(ip) {
      var p := Split(text, '.');
      SplitOfFour(text);
      hide IsOctet, PrintNat, DigitsValue, Split;
      PrintOctet(p[0]);
      PrintOctet(p[1]);
      PrintOctet(p[2]);
      PrintOctet(p[3]);
    }
    PrintParseIp(ip);
  }
}
