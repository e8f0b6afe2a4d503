/** Printing internet addresses, and parsing them where the leading components may be missing. */
module UdpAddress {
  import opened Words
  import opened Wrappers

  const PORTS: nat := 0x1_0000

  datatype Address = Address(host: nat, port: nat)

  // ---------- decimal numbers ----------

  predicate IsDigit(c: char) {
    '0' <= c <= '9'
  }

  function DigitValue(c: char): nat
    requires IsDigit(c)
  {
    c as int - '0' as int
  }

  predicate AllDigits(s: string) {
    forall c <- s :: IsDigit(c)
  }

  function Value(s: string): nat
    requires AllDigits(s)
  {
    if s == [] then 0 else 10 * Value(s[..|s| - 1]) + DigitValue(s[|s| - 1])
  }

  function Decimal(n: nat): (s: string)
    ensures AllDigits(s) && |s| > 0
  {
    (if n < 10 then [] else Decimal(n / 10)) + [('0' as int + n % 10) as char]
  }

  lemma {:induction false} DecimalValue(n: nat)
    ensures Value(Decimal(n)) == n
  {
    if n >= 10 {
      DecimalValue(n / 10);
      assert Decimal(n)[..|Decimal(n)| - 1] == Decimal(n / 10);
    } else {
      assert Decimal(n)[..|Decimal(n)| - 1] == [];
    }
  }

  lemma DecimalLength(n: nat)
    ensures n < 1000 ==> |Decimal(n)| <= 3
    ensures n < 100000 ==> |Decimal(n)| <= 5
  {
    assert n < 100 ==> |Decimal(n)| <= 2;
    assert n / 10 < 100 ==> |Decimal(n / 10)| <= 2;
    assert n / 10 / 10 < 100 ==> |Decimal(n / 10 / 10)| <= 2;
    assert n / 10 / 10 / 10 < 100 ==> |Decimal(n / 10 / 10 / 10)| <= 2;
  }

  /** The number of digits a string begins with. */
  function Run(s: string): (n: nat)
    ensures n <= |s| && AllDigits(s[..n]) && (n < |s| ==> !IsDigit(s[n]))
  {
    if s == [] || !IsDigit(s[0]) then 0 else
    assert s == [s[0]] + s[1..];
    1 + Run(s[1..])
  }

  predicate StartsPlain(s: string) {
    s == [] || !IsDigit(s[0])
  }

  lemma {:induction false} RunOf(digits: string, rest: string)
    requires AllDigits(digits) && StartsPlain(rest)
    ensures Run(digits + rest) == |digits|
  {
    if digits != [] {
      assert (digits + rest)[1..] == digits[1..] + rest;
      RunOf(digits[1..], rest);
    } else {
      assert digits + rest == rest;
    }
  }

  // ---------- the grammar ----------

  /** Components, each after a dot: the address so far, their number, and what follows them. */
  datatype Parsed = Parsed(addr: nat, count: nat, rest: string)

  function Components(s: string, addr: nat, count: nat): Option<Parsed>
    decreases |s|
  {
    if s == [] || s[0] != '.' then Some(Parsed(addr, count, s)) else
    var t := s[1..];
    var n := Run(t);
    if n > 3 || !(t[n..] == [] || t[n] == '.' || t[n] == ':') || Value(t[..n]) > 255 then None else
    Components(t[n..], (addr * 0x100 + Value(t[..n])) % REG, count + 1)
  }

  function MaskOf(count: nat): nat {
    if count == 0 then 0xffff_ffff else if count == 1 then 0xffff_ff00 else if count == 2 then 0xffff_0000
    else if count == 3 then 0xff00_0000 else 0
  }

  predicate IsSpace(c: char) {
    c == ' ' || 9 <= c as int <= 13
  }

  lemma SpacesAre(c: char)
    ensures IsSpace(c) <==> c in [' ', '\t', '\n', '\r', 11 as char, 12 as char]
  {
  }

  /** The number a string begins with, after white space and a sign. */
  function Atoi(s: string): int {
    if s != [] && IsSpace(s[0]) then Atoi(s[1..])
    else if s != [] && s[0] == '-' then 0 - Value(s[1..][..Run(s[1..])])
    else if s != [] && s[0] == '+' then Value(s[1..][..Run(s[1..])])
    else Value(s[..Run(s)])
  }

  /** The address of a string; components that are missing in front come from an own address. */
  function Parse(s: string, myAddr: nat, hostPort: int): Option<Address> {
    match Components(if s != [] && s[0] == '.' then s else "." + s, 0, 0)
    case None => None
    case Some(p) =>
      var port := if p.rest != [] && p.rest[0] == ':' then Atoi(p.rest[1..]) else hostPort;
      Some(Address(Or(And(myAddr, MaskOf(p.count)), p.addr), port % PORTS))
  }

  function Byte(host: nat, shift: nat): nat {
    Down(host, shift) % 0x100
  }

  function Print(a: Address): string {
    Decimal(Byte(a.host, 24)) + "." + Decimal(Byte(a.host, 16)) + "." + Decimal(Byte(a.host, 8)) + "."
      + Decimal(Byte(a.host, 0)) + ":" + Decimal(a.port)
  }

  // ---------- the parser ----------

  /** Reads digits, giving up at the fourth. */
  method Number(buff: string, n: nat, begin: nat) returns (b: nat, num: nat, run: nat)
    requires begin <= n < |buff| && !IsDigit(buff[n])
    ensures b == begin + run <= n && AllDigits(buff[begin..b])
    ensures if run > 3 then Run(buff[begin..n]) > 3
      else Run(buff[begin..n]) == run && num == Value(buff[begin..b]) && !IsDigit(buff[b])
  {
    hide Run, Value, AllDigits;
    b, num, run := begin, 0, 0;
    NoDigits(buff, begin);
    while IsDigit(buff[b])
      invariant begin <= b <= n && run == b - begin <= 3
      invariant AllDigits(buff[begin..b]) && num == Value(buff[begin..b])
      decreases n - b
    {
      OneMoreDigit(buff, begin, b);
      num := num * 10 + DigitValue(buff[b]);
      b, run := b + 1, run + 1;
      if run > 3 {
        assert buff[begin..n][..run] == buff[begin..b];
        RunAtLeast(buff[begin..n], run);
        return;
      }
    }
    assert buff[begin..n] == buff[begin..b] + buff[b..n];
    RunOf(buff[begin..b], buff[b..n]);
  }

  lemma OneMoreDigit(buff: string, begin: nat, b: nat)
    requires begin <= b < |buff| && AllDigits(buff[begin..b]) && IsDigit(buff[b])
    ensures AllDigits(buff[begin..b + 1])
    ensures Value(buff[begin..b + 1]) == 10 * Value(buff[begin..b]) + DigitValue(buff[b])
  {
    var s := buff[begin..b + 1];
    assert s[..|s| - 1] == buff[begin..b] && s[|s| - 1] == buff[b];
  }

  lemma NoDigits(buff: string, begin: nat)
    requires begin <= |buff|
    ensures AllDigits(buff[begin..begin]) && Value(buff[begin..begin]) == 0
  {
  }

  lemma {:induction false} RunAtLeast(s: string, n: nat)
    requires n <= |s| && AllDigits(s[..n])
    ensures n <= Run(s)
  {
    if n > 0 {
      assert s[..n][0] == s[0] && s[..n][1..] == s[1..][..n - 1];
      RunAtLeast(s[1..], n - 1);
    }
  }

  lemma ComponentsStep(u: string, addr: nat, count: nat)
    requires u != [] && u[0] == '.'
    ensures
      var t := u[1..];
      var n := Run(t);
      Components(u, addr, count) ==
        if n > 3 || !(t[n..] == [] || t[n] == '.' || t[n] == ':') || Value(t[..n]) > 255 then None else
        Components(t[n..], (addr * 0x100 + Value(t[..n])) % REG, count + 1)
  {
  }

  lemma ComponentsEnd(u: string, addr: nat, count: nat)
    requires u == [] || u[0] != '.'
    ensures Components(u, addr, count) == Some(Parsed(addr, count, u))
  {
  }

  lemma NextMask(count: nat)
    ensures (MaskOf(count) * 0x100) % REG == MaskOf(count + 1)
  {
  }

  /** One component: the body of the loop, but for the mask. */
  method Component(buff: string, n: nat, begin: nat, addr: nat, ghost count: nat)
    returns (ok: bool, b: nat, addr': nat)
    requires begin < n < |buff| && buff[n] == '\0' && buff[begin] == '.' && '\0' !in buff[..n]
    ensures begin < b <= n && addr' < REG
    ensures ok ==> Components(buff[begin..n], addr, count) == Components(buff[b..n], addr', count + 1)
    ensures !ok ==> Components(buff[begin..n], addr, count) == None
  {
    hide Components, Run, Value, AllDigits;
    var num, run;
    addr' := 0;
    b, num, run := Number(buff, n, begin + 1);
    ComponentsStep(buff[begin..n], addr, count);
    Tails(buff, n, begin + 1, run);
    assert b < n ==> buff[b] in buff[..n];
    if run > 3 {
      return false, b, 0;
    }
    if !IsDigit(buff[b]) && buff[b] != '.' && buff[b] != ':' && buff[b] != '\0' {
      return false, b, 0;
    }
    if num < 0 || num > 255 {
      return false, b, 0;
    }
    return true, b, (addr * 0x100 + num) % REG;
  }

  method PartialIPAddress(s: string, myAddr: nat, hostPort: int) returns (r: Option<Address>)
    requires |s| <= 254 && '\0' !in s
    ensures r == Parse(s, myAddr, hostPort)
  {
    hide Components, And, Or, Atoi, MaskOf;
    var n, buff := |s| + 1, "." + s + ['\0'];
    assert buff[..n] == "." + s;
    var b := if buff[1] == '.' then 1 else 0;
    var addr, mask := 0, 0xffff_ffff;
    ghost var count := 0;
    FirstMask();
    ghost var start := buff[b..n];
    assert start == if s != [] && s[0] == '.' then s else "." + s;
    while buff[b] == '.'
      invariant 0 <= b <= n && 0 <= addr < REG && mask == MaskOf(count)
      invariant Components(start, 0, 0) == Components(buff[b..n], addr, count)
      decreases n - b
    {
      var ok;
      ok, b, addr := Component(buff, n, b, addr, count);
      if !ok {
        return None;
      }
      NextMask(count);
      mask := (mask * 0x100) % REG;
      count := count + 1;
    }
    ComponentsEnd(buff[b..n], addr, count);
    var port := hostPort;
    b := b + 1;
    if buff[b - 1] == ':' {
      assert buff[b..n] == buff[b - 1..n][1..];
      port := Atoi(buff[b..n]);
    }
    r := Some(Address(Or(And(myAddr, mask), addr), port % PORTS));
  }

  lemma FirstMask()
    ensures MaskOf(0) == 0xffff_ffff
  {
  }

  lemma Tails(buff: string, n: nat, at: nat, run: nat)
    requires 0 < at && at + run <= n < |buff|
    ensures buff[at - 1..n][1..] == buff[at..n]
    ensures buff[at..n][run..] == buff[at + run..n] && buff[at..n][..run] == buff[at..at + run]
  {
  }

  // ---------- what is accepted ----------

  /** A component may be empty or have leading zeros, but no more than three digits. */
  predicate IsComponent(c: string) {
    AllDigits(c) && |c| <= 3 && Value(c) <= 255
  }

  predicate AreComponents(cs: seq<string>) {
    forall i | 0 <= i < |cs| :: IsComponent(cs[i])
  }

  function Dotted(cs: seq<string>): string {
    if cs == [] then "" else "." + cs[0] + Dotted(cs[1..])
  }

  /** The components as the digits of a number to the base 256. */
  function Number256(addr: nat, cs: seq<string>): nat
    requires AreComponents(cs)
    decreases |cs|
  {
    if cs == [] then addr else Number256((addr * 0x100 + Value(cs[0])) % REG, cs[1..])
  }

  predicate EndsAddress(tail: string) {
    tail == [] || tail[0] == ':'
  }

  lemma DottedStarts(cs: seq<string>, tail: string)
    requires EndsAddress(tail)
    ensures
      var t := Dotted(cs) + tail;
      StartsPlain(t) && (t == [] || t[0] == '.' || t[0] == ':')
  {
  }

  /** Dotted components are parsed into their number. */
  lemma {:induction false} ComponentsOf(cs: seq<string>, tail: string, addr: nat, count: nat)
    requires AreComponents(cs) && EndsAddress(tail)
    ensures Components(Dotted(cs) + tail, addr, count) == Some(Parsed(Number256(addr, cs), count + |cs|, tail))
    decreases |cs|
  {
    hide Run, Value, Components;
    var s := Dotted(cs) + tail;
    if cs == [] {
      assert s == tail;
      ComponentsEnd(tail, addr, count);
    } else {
      var rest := Dotted(cs[1..]) + tail;
      assert s == "." + cs[0] + rest && s[1..] == cs[0] + rest;
      DottedStarts(cs[1..], tail);
      RunOf(cs[0], rest);
      assert (cs[0] + rest)[|cs[0]|..] == rest && (cs[0] + rest)[..|cs[0]|] == cs[0];
      ComponentsStep(s, addr, count);
      ComponentsOf(cs[1..], tail, (addr * 0x100 + Value(cs[0])) % REG, count + 1);
    }
  }

  /** Nothing else is accepted. */
  lemma {:induction false} OnlyComponents(s: string, addr: nat, count: nat) returns (cs: seq<string>)
    requires Components(s, addr, count).Some?
    ensures AreComponents(cs) && s == Dotted(cs) + Components(s, addr, count).value.rest
    ensures count == 0 && s != [] && s[0] == '.' ==> cs != []
    decreases |s|
  {
    hide Run, Value, Components, Dotted, IsComponent, AllDigits;
    if s == [] || s[0] != '.' {
      cs := [];
      ComponentsEnd(s, addr, count);
      DottedNone(s);
    } else {
      var t := s[1..];
      var n := Run(t);
      ComponentsStep(s, addr, count);
      IsOne(t[..n]);
      var more := OnlyComponents(t[n..], (addr * 0x100 + Value(t[..n])) % REG, count + 1);
      cs := [t[..n]] + more;
      DottedCons(s, n, more, Components(s, addr, count).value.rest);
    }
  }

  lemma IsOne(c: string)
    requires AllDigits(c) && |c| <= 3 && Value(c) <= 255
    ensures IsComponent(c)
  {
  }

  lemma DottedNone(s: string)
    ensures s == Dotted([]) + s
  {
  }

  lemma DottedCons(s: string, n: nat, more: seq<string>, rest: string)
    requires s != [] && s[0] == '.' && n <= |s| - 1 && s[1..][n..] == Dotted(more) + rest
    ensures s == Dotted([s[1..][..n]] + more) + rest
  {
    var c := s[1..][..n];
    assert ([c] + more)[1..] == more;
    assert Dotted([c] + more) == "." + c + Dotted(more);
    assert s == "." + c + (Dotted(more) + rest);
  }

  lemma {:induction false} EndIsPlain(s: string, addr: nat, count: nat)
    requires Components(s, addr, count).Some? && (s == [] || s[0] == '.' || s[0] == ':')
    ensures EndsAddress(Components(s, addr, count).value.rest)
    decreases |s|
  {
    hide Run, Value, Components;
    if s == [] || s[0] != '.' {
      ComponentsEnd(s, addr, count);
    } else {
      var t := s[1..];
      ComponentsStep(s, addr, count);
      EndIsPlain(t[Run(t)..], (addr * 0x100 + Value(t[..Run(t)])) % REG, count + 1);
    }
  }

  /** The text of an address: components between dots, where the first dot may be written or not. */
  ghost predicate IsAddress(s: string) {
    exists cs: seq<string>, tail: string :: Spells(s, cs, tail)
  }

  ghost predicate Spells(s: string, cs: seq<string>, tail: string) {
    cs != [] && AreComponents(cs) && EndsAddress(tail) && WithDot(s) == Dotted(cs) + tail
  }

  function WithDot(s: string): string {
    if s != [] && s[0] == '.' then s else "." + s
  }

  /** Exactly the texts of addresses are accepted. */
  lemma AcceptedExactly(s: string, myAddr: nat, hostPort: int)
    ensures Parse(s, myAddr, hostPort).Some? <==> IsAddress(s)
  {
    hide Components, Dotted, AreComponents, Atoi, And, Or;
    var u := WithDot(s);
    if Components(u, 0, 0).Some? {
      var cs := OnlyComponents(u, 0, 0);
      EndIsPlain(u, 0, 0);
      assert Spells(s, cs, Components(u, 0, 0).value.rest);
    }
    if IsAddress(s) {
      var cs: seq<string>, tail: string :| Spells(s, cs, tail);
      ComponentsOf(cs, tail, 0, 0);
    }
  }

  // ---------- what it means ----------

  lemma {:induction false} AndHigh(x: nat, m: nat, n: nat)
    requires x < Pow2(m + n)
    ensures And(x, Up(Pow2(m) - 1, n)) == Up(Down(x, n), n)
  {
    if n == 0 {
      AndAll(x, m);
    } else {
      AndHigh(x / 2, m, n - 1);
      AndEven(x, Up(Pow2(m) - 1, n - 1));
    }
  }

  lemma AndEven(x: nat, y: nat)
    ensures And(x, 2 * y) == 2 * And(x / 2, y)
  {
    assert (2 * y) / 2 == y && (2 * y) % 2 == 0;
  }

  lemma MaskIs(count: nat)
    requires count <= 4
    ensures MaskOf(count) == Up(Pow2(32 - 8 * count) - 1, 8 * count) && Pow2(32) == REG
    ensures Pow2(8 * count) == Power256(count)
  {
    hide Up, Pow2;
    UpOnes(32 - 8 * count, 8 * count);
    PowersOfTwo();
  }

  lemma {:induction false} UpOnes(m: nat, n: nat)
    ensures Up(Pow2(m) - 1, n) == Pow2(m + n) - Pow2(n)
  {
    if n > 0 {
      UpOnes(m, n - 1);
    }
  }

  function Power256(k: nat): nat {
    if k == 0 then 1 else 0x100 * Power256(k - 1)
  }

  lemma PowersOfTwo()
    ensures Pow2(0) == 1 && Pow2(8) == 0x100 && Pow2(16) == 0x1_0000 && Pow2(24) == 0x100_0000 && Pow2(32) == REG
    ensures Power256(0) == 1 && Power256(1) == 0x100 && Power256(2) == 0x1_0000 && Power256(3) == 0x100_0000
    ensures Power256(4) == REG
  {
    hide Pow2;
    PowByte(0);
    PowByte(8);
    PowByte(16);
    PowByte(24);
    PowNone();
    assert Power256(2) == 0x100 * Power256(1);
    assert Power256(3) == 0x100 * Power256(2);
  }

  lemma PowByte(n: nat)
    ensures Pow2(n + 8) == 0x100 * Pow2(n)
  {
    assert Pow2(n + 4) == 16 * Pow2(n) by {
      assert Pow2(n + 2) == 4 * Pow2(n);
    }
    assert Pow2(n + 8) == 16 * Pow2(n + 4) by {
      assert Pow2(n + 6) == 4 * Pow2(n + 4);
    }
  }

  lemma {:induction false} Number256Below(addr: nat, cs: seq<string>, k: nat)
    requires AreComponents(cs) && addr < Power256(k) && k + |cs| <= 4
    ensures Number256(addr, cs) < Power256(k + |cs|)
    decreases |cs|
  {
    hide Value;
    PowersOfTwo();
    if cs != [] {
      var next := addr * 0x100 + Value(cs[0]);
      assert next < Power256(k + 1);
      assert next % REG < Power256(k + 1);
      Number256Below(next % REG, cs[1..], k + 1);
    }
  }

  /** With at most four components, they are the low bytes, and the own address gives the others. */
  lemma MissingComponents(s: string, cs: seq<string>, tail: string, myAddr: nat, hostPort: int)
    requires Spells(s, cs, tail) && |cs| <= 4 && myAddr < REG
    ensures Parse(s, myAddr, hostPort).Some?
    ensures
      var host := Parse(s, myAddr, hostPort).value.host;
      && host == Up(Down(myAddr, 8 * |cs|), 8 * |cs|) + Number256(0, cs)
      && Number256(0, cs) < Pow2(8 * |cs|)
  {
    hide Components, Dotted, AreComponents, Atoi, And, Or, Up, Down, Pow2, Number256, MaskOf;
    ComponentsOf(cs, tail, 0, 0);
    PowersOfTwo();
    Number256Below(0, cs, 0);
    MaskIs(|cs|);
    AndHigh(myAddr, 32 - 8 * |cs|, 8 * |cs|);
    OrDisjoint(Down(myAddr, 8 * |cs|), 8 * |cs|, Number256(0, cs));
  }

  /** Without a port in the text, it is the one of the host. */
  lemma PortOfHost(s: string, cs: seq<string>, myAddr: nat, hostPort: int)
    requires Spells(s, cs, [])
    ensures Parse(s, myAddr, hostPort).Some? && Parse(s, myAddr, hostPort).value.port == hostPort % PORTS
  {
    hide Components, Dotted, AreComponents, Atoi, And, Or, Number256, MaskOf;
    ComponentsOf(cs, [], 0, 0);
  }

  /** The port in a text is the number behind the colon, after white space and a sign, up to what is no digit. */
  lemma PortInText(s: string, cs: seq<string>, spaces: string, sign: string, n: nat, rest: string,
      myAddr: nat, hostPort: int)
    requires Spells(s, cs, ":" + (spaces + (sign + (Decimal(n) + rest))))
    requires (forall c <- spaces :: IsSpace(c)) && sign in ["", "+", "-"] && StartsPlain(rest)
    ensures Parse(s, myAddr, hostPort).Some?
    ensures Parse(s, myAddr, hostPort).value.port == Signed(sign, n) % PORTS
  {
    hide Components, Dotted, AreComponents, Atoi, And, Or, Number256, MaskOf, Decimal;
    var text := spaces + (sign + (Decimal(n) + rest));
    var tail := ":" + text;
    assert tail[0] == ':' && tail[1..] == text;
    ComponentsOf(cs, tail, 0, 0);
    AtoiSpaces(spaces, sign + (Decimal(n) + rest));
    AtoiSigned(sign, n, rest);
  }

  lemma {:induction false} AtoiSpaces(spaces: string, text: string)
    requires forall c <- spaces :: IsSpace(c)
    ensures Atoi(spaces + text) == Atoi(text)
    decreases |spaces|
  {
    if spaces == [] {
      assert spaces + text == text;
    } else {
      assert (spaces + text)[0] == spaces[0] && (spaces + text)[1..] == spaces[1..] + text;
      AtoiSpaces(spaces[1..], text);
    }
  }

  function Signed(sign: string, n: nat): int {
    if sign == "-" then 0 - n else n
  }

  lemma AtoiSigned(sign: string, n: nat, rest: string)
    requires sign in ["", "+", "-"] && StartsPlain(rest)
    ensures Atoi(sign + (Decimal(n) + rest)) == Signed(sign, n)
  {
    hide Decimal, Value, Run;
    var digits := Decimal(n) + rest;
    assert digits[0] == Decimal(n)[0] && Decimal(n)[0] in Decimal(n);
    RunOf(Decimal(n), rest);
    assert digits[..|Decimal(n)|] == Decimal(n);
    DecimalValue(n);
    if sign == "" {
      assert sign + digits == digits;
    } else {
      var text := sign + digits;
      assert text[0] == sign[0] && !IsSpace(sign[0]) && text[1..] == digits;
      assert text[1..][..Run(text[1..])] == Decimal(n);
    }
  }

  // ---------- printing and parsing back ----------

  lemma PrintFits(a: Address)
    requires a.host < REG && a.port < PORTS
    ensures |Print(a)| <= 21
  {
    hide Decimal, Byte;
    DecimalLength(Byte(a.host, 24));
    DecimalLength(Byte(a.host, 16));
    DecimalLength(Byte(a.host, 8));
    DecimalLength(Byte(a.host, 0));
    DecimalLength(a.port);
    ByteSmall(a.host, 24);
    ByteSmall(a.host, 16);
    ByteSmall(a.host, 8);
    ByteSmall(a.host, 0);
  }

  lemma ByteSmall(host: nat, shift: nat)
    ensures Byte(host, shift) <= 255
  {
  }

  /** The decimal components of an address. */
  function Parts(host: nat): seq<string> {
    [Decimal(Byte(host, 24)), Decimal(Byte(host, 16)), Decimal(Byte(host, 8)), Decimal(Byte(host, 0))]
  }

  lemma ByteIsComponent(host: nat, shift: nat)
    ensures IsComponent(Decimal(Byte(host, shift))) && Value(Decimal(Byte(host, shift))) == Byte(host, shift)
  {
    hide Decimal, Byte, Value;
    ByteSmall(host, shift);
    DecimalLength(Byte(host, shift));
    DecimalValue(Byte(host, shift));
  }

  lemma PartsAreComponents(host: nat)
    ensures AreComponents(Parts(host))
  {
    hide IsComponent, Decimal, Byte;
    ByteIsComponent(host, 24);
    ByteIsComponent(host, 16);
    ByteIsComponent(host, 8);
    ByteIsComponent(host, 0);
  }

  /** The bytes of an address, put together again. */
  lemma BytesOf(host: nat)
    requires host < REG
    ensures
      ((Byte(host, 24) * 0x100 + Byte(host, 16)) * 0x100 + Byte(host, 8)) * 0x100 + Byte(host, 0) == host
  {
    DownByte(host, 0);
    DownByte(host, 8);
    DownByte(host, 16);
    assert Down(host, 0) == host;
    DownByte(host, 24);
    hide Down;
    assert Down(host, 24) < 0x100;
  }

  lemma DownByte(x: nat, n: nat)
    ensures Down(x, n + 8) == Down(x, n) / 0x100
  {
    hide Down, Pow2;
    DownDown(x, n, 8);
    DownIsDiv(Down(x, n), 8);
    PowersOfTwo();
  }

  lemma PartsNumber(host: nat)
    requires host < REG
    ensures AreComponents(Parts(host)) && Number256(0, Parts(host)) == host
  {
    hide IsComponent, Decimal, Byte, Value, Number256, AreComponents;
    PartsAreComponents(host);
    BytesOf(host);
    var cs := Parts(host);
    NumberStep(0, cs, host, 24);
    NumberStep(Byte(host, 24), cs[1..], host, 16);
    NumberStep(Byte(host, 24) * 0x100 + Byte(host, 16), cs[2..], host, 8);
    NumberStep((Byte(host, 24) * 0x100 + Byte(host, 16)) * 0x100 + Byte(host, 8), cs[3..], host, 0);
    NumberEnd(host, cs[4..]);
  }

  lemma NumberStep(addr: nat, cs: seq<string>, host: nat, shift: nat)
    requires AreComponents(cs) && cs != [] && cs[0] == Decimal(Byte(host, shift))
    ensures AreComponents(cs[1..])
    ensures addr * 0x100 + Byte(host, shift) < REG ==>
      Number256(addr, cs) == Number256(addr * 0x100 + Byte(host, shift), cs[1..])
  {
    ByteIsComponent(host, shift);
  }

  lemma NumberEnd(addr: nat, cs: seq<string>)
    requires cs == []
    ensures AreComponents(cs) && Number256(addr, cs) == addr
  {
  }

  lemma AtoiDecimal(n: nat)
    ensures Atoi(Decimal(n)) == n
  {
    hide Decimal, Atoi;
    AtoiSigned("", n, []);
    assert "" + (Decimal(n) + []) == Decimal(n);
  }

  /** An example in full. */
  lemma Loopback(myAddr: nat, hostPort: int)
    ensures Print(Address(0x7f00_0001, 26000)) == "127.0.0.1:26000"
    ensures Parse("127.0.0.1:26000", myAddr, hostPort) == Some(Address(0x7f00_0001, 26000))
  {
    hide Parse, Byte, Decimal;
    RoundTrip(Address(0x7f00_0001, 26000), myAddr, hostPort);
    LoopbackBytes();
    LoopbackNumbers();
  }

  lemma LoopbackBytes()
    ensures Byte(0x7f00_0001, 24) == 127 && Byte(0x7f00_0001, 16) == 0
    ensures Byte(0x7f00_0001, 8) == 0 && Byte(0x7f00_0001, 0) == 1
  {
    DownByte(0x7f00_0001, 0);
    DownByte(0x7f00_0001, 8);
    DownByte(0x7f00_0001, 16);
    assert Down(0x7f00_0001, 0) == 0x7f00_0001;
    hide Down;
  }

  lemma LoopbackNumbers()
    ensures Decimal(127) == "127" && Decimal(0) == "0" && Decimal(1) == "1" && Decimal(26000) == "26000"
  {
    assert Decimal(12) == "12" && Decimal(26) == "26" && Decimal(2600) == "2600";
  }

  /** Parsing the text of an address gives the address, whatever the own one is. */
  lemma RoundTrip(a: Address, myAddr: nat, hostPort: int)
    requires a.host < REG && a.port < PORTS
    ensures Parse(Print(a), myAddr, hostPort) == Some(a)
  {
    hide Decimal, Byte, Components, Atoi, Number256, AreComponents, And, Or, Value;
    var cs, tail := Parts(a.host), ":" + Decimal(a.port);
    PrintIsDotted(a);
    PartsNumber(a.host);
    ComponentsOf(cs, tail, 0, 0);
    assert tail[1..] == Decimal(a.port);
    AtoiDecimal(a.port);
    NoMask(myAddr, a.host);
  }

  lemma NoMask(myAddr: nat, host: nat)
    ensures Or(And(myAddr, MaskOf(4)), host) == host
  {
  }

  lemma PrintIsDotted(a: Address)
    ensures WithDot(Print(a)) == Dotted(Parts(a.host)) + (":" + Decimal(a.port))
    ensures Print(a) != [] && Print(a)[0] != '.'
  {
    hide Decimal, Byte;
    var d3, d2 := Decimal(Byte(a.host, 24)), Decimal(Byte(a.host, 16));
    var d1, d0 := Decimal(Byte(a.host, 8)), Decimal(Byte(a.host, 0));
    assert d3[0] in d3 && Print(a)[0] == d3[0];
    FourDotted(d3, d2, d1, d0);
    assert "." + Print(a) == ("." + d3 + "." + d2 + "." + d1 + "." + d0) + (":" + Decimal(a.port));
  }

  lemma FourDotted(a: string, b: string, c: string, d: string)
    ensures Dotted([a, b, c, d]) == "." + a + "." + b + "." + c + "." + d
  {
    assert Dotted([d]) == "." + d + Dotted([]) == "." + d;
    assert [c, d][1..] == [d] && [b, c, d][1..] == [c, d] && [a, b, c, d][1..] == [b, c, d];
    assert Dotted([c, d]) == "." + c + ("." + d) == "." + c + "." + d;
    assert Dotted([b, c, d]) == "." + b + ("." + c + "." + d) == "." + b + "." + c + "." + d;
  }
}
