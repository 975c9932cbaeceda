/**
 * The Nix value serialiser: each supported Rust value becomes the text of a
 * Nix expression.
 */
module Nix {
  import opened Wrappers
  import opened Numeric
  import opened Net

  const Quote: char := '"'

  /** A string in double quotes; the characters in between are not escaped. */
  function StringToNix(s: string): (r: string)
    ensures |r| == |s| + 2
    ensures r[0] == Quote && r[|r| - 1] == Quote
    ensures r[1..|r| - 1] == s
  {
    [Quote] + s + [Quote]
  }

  /** Strips the surrounding double quotes of a quoted text. */
  function Unquote(t: string): Option<string>
  {
    if |t| >= 2 && t[0] == Quote && t[|t| - 1] == Quote then Some(t[1..|t| - 1]) else None
  }

  lemma StringToNixRoundTrip(s: string)
    ensures Unquote(StringToNix(s)) == Some(s)
  {
  }

  /** The serialiser adds exactly the two enclosing quotes: quotes inside `s` are kept as they are. */
  lemma StringToNixQuotes(s: string)
    ensures multiset(StringToNix(s))[Quote] == multiset(s)[Quote] + 2
  {
  }

  function Ipv4ToNix(addr: Ipv4Addr): (r: string)
    ensures Unquote(r) == Some(Ipv4Text(addr))
  {
    StringToNix(Ipv4Text(addr))
  }

  function Ipv6ToNix(addr: Ipv6Addr): (r: string)
    ensures Unquote(r) == Some(Ipv6Text(addr))
  {
    StringToNix(Ipv6Text(addr))
  }

  function IpToNix(ip: IpAddr): (r: string)
    ensures Unquote(r) == Some(IpText(ip))
    ensures ip.V4? ==> r == Ipv4ToNix(ip.v4)
    ensures ip.V6? ==> r == Ipv6ToNix(ip.v6)
  {
    StringToNix(IpText(ip))
  }

  /** The IPv4 literal reads back as the address it was made from. */
  lemma Ipv4ToNixRoundTrip(addr: Ipv4Addr)
    ensures Unquote(Ipv4ToNix(addr)).Some?
    ensures ParseIpv4(Unquote(Ipv4ToNix(addr)).value) == Some(addr)
  {
    Ipv4TextRoundTrip(addr);
  }

  /** An `i32` as an unquoted decimal literal. */
  function I32ToNix(n: int32): (r: string)
    ensures |r| >= 1 && (r[0] == '-' <==> n < 0)
    ensures forall i | (if n < 0 then 1 else 0) <= i < |r| :: '0' <= r[i] <= '9'
    ensures ParseInt(r) == Some(n as int)
    ensures var d := if n < 0 then 1 else 0; d < |r| && (r[d] == '0' ==> r == "0")
  {
    IntToTextRoundTrip(n as int);
    IntToText(n as int)
  }

  /** `None` is `null`; `Some(v)` is whatever `v` serialises to. */
  function OptionToNix<T>(o: Option<T>, toNix: T -> string): (r: string)
    ensures o.Some? ==> r == toNix(o.value)
    ensures r == "null" <==> o.None? || toNix(o.value) == "null"
  {
    match o
    case Some(v) => toNix(v)
    case None => "null"
  }

  /** Over an injective serialiser that never yields `null`, options serialise injectively. */
  lemma OptionToNixInjective<T>(toNix: T -> string, x: Option<T>, y: Option<T>)
    requires forall v, w :: toNix(v) == toNix(w) ==> v == w
    requires forall v :: toNix(v) != "null"
    ensures OptionToNix(x, toNix) == OptionToNix(y, toNix) ==> x == y
  {
  }

  lemma StringOptionToNixInjective(x: Option<string>, y: Option<string>)
    ensures OptionToNix(x, StringToNix) == OptionToNix(y, StringToNix) ==> x == y
  {
  }

  lemma I32OptionToNixInjective(x: Option<int32>, y: Option<int32>)
    ensures OptionToNix(x, I32ToNix) == OptionToNix(y, I32ToNix) ==> x == y
  {
  }

  /** A nested option loses its structure: `Some(None)` and `None` both serialise to `null`. */
  lemma NestedOptionToNixNotInjective<T>(toNix: T -> string)
    ensures OptionToNix(Some(None), (o: Option<T>) => OptionToNix(o, toNix))
         == OptionToNix(None, (o: Option<T>) => OptionToNix(o, toNix))
         == "null"
  {
  }
}
