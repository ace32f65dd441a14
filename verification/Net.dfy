/** server/common/net.h: endpoints and their printed form, which doubles as a broker session key. */
module Net {

  type Port = x: int | 0 <= x < 0x1_0000

  datatype Endpoint = Endpoint(host: string, port: Port, ipv6: bool) {

    function Display(): string {
      if ipv6 then "[" + host + "]:" + Decimal(port) else host + ":" + Decimal(port)
    }

    /** The host is a numeric address as the operating system prints it. */
    predicate Numeric() {
      forall i :: 0 <= i < |host| ==>
        if ipv6 then IsHexDigit(host[i]) || host[i] == ':' || host[i] == '.'
        else '0' <= host[i] <= '9' || host[i] == '.'
    }
  }

  predicate IsHexDigit(c: char) {
    '0' <= c <= '9' || 'a' <= c <= 'f' || 'A' <= c <= 'F'
  }

  function Digit(d: int): char
    requires 0 <= d < 10
  {
    ['0', '1', '2', '3', '4', '5', '6', '7', '8', '9'][d]
  }

  /** std::to_string of an unsigned number. */
  function Decimal(n: nat): string {
    if n < 10 then [Digit(n)] else Decimal(n / 10) + [Digit(n % 10)]
  }

  /** The key of a broker session: caller "|" callee. */
  function PairKey(caller: Endpoint, callee: Endpoint): string {
    caller.Display() + "|" + callee.Display()
  }

  lemma {:induction false} DecimalDigitsOnly(n: nat)
    ensures |Decimal(n)| > 0
    ensures forall i :: 0 <= i < |Decimal(n)| ==> '0' <= Decimal(n)[i] <= '9'
  {
    if n >= 10 {
      DecimalDigitsOnly(n / 10);
    }
  }

  lemma DecimalShape(n: nat)
    ensures var s := Decimal(n);
      |s| > 0 && s[|s| - 1] == Digit(n % 10) && (n < 10 <==> |s| == 1) && (n >= 10 ==> s[..|s| - 1] == Decimal(n / 10))
  {
    DecimalDigitsOnly(n / 10);
  }

  /** Decimal printing is injective. */
  lemma {:induction false} DecimalInjective(m: nat, n: nat)
    requires Decimal(m) == Decimal(n)
    ensures m == n
  {
    DecimalShape(m);
    DecimalShape(n);
    DigitInjective(m % 10, n % 10);
    if m >= 10 {
      DecimalInjective(m / 10, n / 10);
    }
  }

  /** The number a string of decimal digits denotes. */
  function ValueOf(s: string): int {
    if s == "" then 0 else 10 * ValueOf(s[..|s| - 1]) + (s[|s| - 1] as int - '0' as int)
  }

  lemma DigitDenotes(d: int)
    requires 0 <= d < 10
    ensures Digit(d) as int - '0' as int == d
  {
  }

  /** Printing gives the shortest string of decimal digits that denotes the number. */
  lemma {:induction false} DecimalDenotes(n: nat)
    ensures var s := Decimal(n);
      && ValueOf(s) == n && s != ""
      && (forall i :: 0 <= i < |s| ==> '0' <= s[i] <= '9')
      && (n > 0 ==> s[0] != '0') && (n == 0 ==> s == "0")
  {
    DecimalDigitsOnly(n);
    DecimalShape(n);
    DigitDenotes(n % 10);
    if n >= 10 {
      hide Decimal, Digit;
      DecimalDenotes(n / 10);
      assert Decimal(n)[0] == Decimal(n)[..|Decimal(n)| - 1][0];
    } else {
      hide Digit;
      assert Decimal(n)[..0] == "";
    }
  }

  /** Endpoints and broker keys as text. */
  lemma PrintedForm(a: Endpoint, b: Endpoint)
    ensures !a.ipv6 ==> a.Display() == a.host + ":" + Decimal(a.port)
    ensures a.ipv6 ==> a.Display() == "[" + a.host + "]:" + Decimal(a.port)
    ensures PairKey(a, b) == a.Display() + "|" + b.Display()
  {
  }

  lemma DigitInjective(c: int, d: int)
    requires 0 <= c < 10 && 0 <= d < 10
    ensures Digit(c) == Digit(d) ==> c == d
  {
  }

  /** A string splits in one way only at the first occurrence of c. */
  lemma SplitUnique(a: string, b: string, x: string, y: string, c: char)
    requires a + [c] + b == x + [c] + y
    requires c !in a && c !in x
    ensures a == x && b == y
  {
    var s := a + [c] + b;
    var t := x + [c] + y;
    assert s[|a|] == c && t[|x|] == c;
    assert forall i :: 0 <= i < |a| ==> s[i] == a[i];
    assert forall i :: 0 <= i < |x| ==> t[i] == x[i];
    assert a == s[..|a|] && x == t[..|x|];
    assert b == s[|a| + 1..] && y == t[|x| + 1..];
  }

  /** A printed numeric endpoint never holds the pair separator. */
  lemma DisplayHasNoBar(e: Endpoint)
    requires e.Numeric()
    ensures '|' !in e.Display()
  {
    DecimalDigitsOnly(e.port);
  }

  /** Distinct numeric endpoints print differently. */
  lemma DisplayInjective(e: Endpoint, f: Endpoint)
    requires e.Numeric() && f.Numeric()
    requires e.Display() == f.Display()
    ensures e == f
  {
    DecimalDigitsOnly(e.port);
    DecimalDigitsOnly(f.port);
    assert e.ipv6 ==> e.Display()[0] == '[';
    assert f.ipv6 ==> f.Display()[0] == '[';
    assert !e.ipv6 ==> e.Display()[0] == (e.host + ":")[0];
    assert !f.ipv6 ==> f.Display()[0] == (f.host + ":")[0];
    if e.ipv6 {
      assert e.Display() == ("[" + e.host) + [']'] + (":" + Decimal(e.port));
      assert f.Display() == ("[" + f.host) + [']'] + (":" + Decimal(f.port));
      SplitUnique("[" + e.host, ":" + Decimal(e.port), "[" + f.host, ":" + Decimal(f.port), ']');
      assert e.host == ("[" + e.host)[1..] && f.host == ("[" + f.host)[1..];
      assert Decimal(e.port) == (":" + Decimal(e.port))[1..];
      assert Decimal(f.port) == (":" + Decimal(f.port))[1..];
    } else {
      SplitUnique(e.host, Decimal(e.port), f.host, Decimal(f.port), ':');
    }
    DecimalInjective(e.port, f.port);
  }

  /** The broker key determines both endpoints, in order. */
  lemma PairKeyInjective(a: Endpoint, b: Endpoint, c: Endpoint, d: Endpoint)
    requires a.Numeric() && b.Numeric() && c.Numeric() && d.Numeric()
    requires PairKey(a, b) == PairKey(c, d)
    ensures a == c && b == d
  {
    DisplayHasNoBar(a);
    DisplayHasNoBar(c);
    SplitUnique(a.Display(), b.Display(), c.Display(), d.Display(), '|');
    DisplayInjective(a, c);
    DisplayInjective(b, d);
  }

  /** Why the lemmas above ask for numeric hosts: the printed form alone does not separate arbitrary host strings.
      The system only ever presents numeric addresses, so no received endpoint is of this kind. */
  lemma DisplayCollidesOnOtherHosts()
    ensures Endpoint("[a]", 7, false) != Endpoint("a", 7, true)
    ensures Endpoint("[a]", 7, false).Display() == Endpoint("a", 7, true).Display()
  {
    assert "[" + "a" + "]:" == "[a]" + ":";
  }
}
