/**
 * IP addresses as the standard library and the `ipnetwork` crate represent
 * them, with their textual (`Display`) renderings, and a parser of the
 * dotted-decimal IPv4 form that inverts the rendering.
 */
module Net {
  import opened Wrappers
  import opened Numeric

  datatype Ipv4Addr = Ipv4Addr(a: uint8, b: uint8, c: uint8, d: uint8)

  /** The eight 16-bit groups of an IPv6 address, most significant first. */
  type Segments = s: seq<uint16> | |s| == 8 witness [0, 0, 0, 0, 0, 0, 0, 0]

  datatype Ipv6Addr = Ipv6Addr(segments: Segments)

  datatype IpAddr = V4(v4: Ipv4Addr) | V6(v6: Ipv6Addr)

  /** An address with its routing prefix length; `ip` is the crate's `ip()`. */
  datatype IpNetwork = IpNetwork(ip: IpAddr, prefix: uint8)

  /** The parts with `sep` between each two adjacent ones. */
  function Join(parts: seq<string>, sep: char): string
    requires |parts| >= 1
  {
    if |parts| == 1 then parts[0] else parts[0] + [sep] + Join(parts[1..], sep)
  }

  /** Dotted-decimal rendering `a.b.c.d` of an IPv4 address. */
  function Ipv4Text(addr: Ipv4Addr): string
  {
    Join([Decimal(addr.a as nat), Decimal(addr.b as nat), Decimal(addr.c as nat), Decimal(addr.d as nat)], '.')
  }

  /** The groups in lower-case hexadecimal, joined by `:` (no `::` compression). */
  function Ipv6Text(addr: Ipv6Addr): string
  {
    Join(seq(8, i requires 0 <= i < 8 => FormatNat(addr.segments[i] as nat, 16)), ':')
  }

  function IpText(ip: IpAddr): (r: string)
    ensures ip.V4? ==> r == Ipv4Text(ip.v4)
    ensures ip.V6? ==> r == Ipv6Text(ip.v6)
  {
    match ip
    case V4(a) => Ipv4Text(a)
    case V6(a) => Ipv6Text(a)
  }

  /** The pieces of `s` between occurrences of `sep`, in order. */
  function Split(s: string, sep: char): (r: seq<string>)
    ensures |r| >= 1
  {
    if s == [] then [[]]
    else
      var rest := Split(s[1..], sep);
      if s[0] == sep then [[]] + rest
      else [[s[0]] + rest[0]] + rest[1..]
  }

  lemma {:induction false} SplitWithoutSeparator(x: string, sep: char)
    requires sep !in x
    ensures Split(x, sep) == [x]
  {
    if x != [] {
      SplitWithoutSeparator(x[1..], sep);
      assert [x[0]] + x[1..] == x;
    }
  }

  lemma {:induction false} SplitAtFirstSeparator(x: string, y: string, sep: char)
    requires sep !in x
    ensures Split(x + [sep] + y, sep) == [x] + Split(y, sep)
  {
    var s := x + [sep] + y;
    if x == [] {
      assert s[1..] == y;
    } else {
      assert s[1..] == x[1..] + [sep] + y;
      SplitAtFirstSeparator(x[1..], y, sep);
      assert [x[0]] + x[1..] == x;
    }
  }

  /** Splitting undoes joining when no part contains the separator. */
  lemma {:induction false} SplitJoin(parts: seq<string>, sep: char)
    requires |parts| >= 1
    requires forall i | 0 <= i < |parts| :: sep !in parts[i]
    ensures Split(Join(parts, sep), sep) == parts
  {
    if |parts| == 1 {
      SplitWithoutSeparator(parts[0], sep);
    } else {
      SplitJoin(parts[1..], sep);
      SplitAtFirstSeparator(parts[0], Join(parts[1..], sep), sep);
    }
  }

  lemma DecimalHasNoSeparator(n: nat, sep: char)
    requires DigitValue(sep) >= 10
    ensures sep !in Decimal(n)
  {
  }

  function ParseOctet(s: string): Option<uint8>
  {
    match ParseNat(s, 10)
    case Some(v) => if v < 0x100 then Some(v as uint8) else None
    case None => None
  }

  /** Reads back a dotted-decimal IPv4 address: four decimal octets separated by `.`. */
  function ParseIpv4(s: string): Option<Ipv4Addr>
  {
    var parts := Split(s, '.');
    if |parts| != 4 then None
    else
      match (ParseOctet(parts[0]), ParseOctet(parts[1]), ParseOctet(parts[2]), ParseOctet(parts[3]))
      case (Some(a), Some(b), Some(c), Some(d)) => Some(Ipv4Addr(a, b, c, d))
      case _ => None
  }

  lemma OctetRoundTrip(x: uint8)
    ensures ParseOctet(Decimal(x as nat)) == Some(x)
  {
    FormatNatRoundTrip(x as nat, 10);
  }

  lemma Ipv4TextRoundTrip(addr: Ipv4Addr)
    ensures ParseIpv4(Ipv4Text(addr)) == Some(addr)
  {
    var parts := [Decimal(addr.a as nat), Decimal(addr.b as nat), Decimal(addr.c as nat), Decimal(addr.d as nat)];
    DecimalHasNoSeparator(addr.a as nat, '.');
    DecimalHasNoSeparator(addr.b as nat, '.');
    DecimalHasNoSeparator(addr.c as nat, '.');
    DecimalHasNoSeparator(addr.d as nat, '.');
    SplitJoin(parts, '.');
    OctetRoundTrip(addr.a);
    OctetRoundTrip(addr.b);
    OctetRoundTrip(addr.c);
    OctetRoundTrip(addr.d);
  }
}
