/**
 * Address and target helpers of the access-log watcher
 * (`_ADDR_PATTERN`, `_extract_address`, `_split_target_fields`,
 * `_address_is_loopback`).
 */
module Address {
  import opened Wrappers
  import opened Text

  // ---------------------------------------------------------------------
  // _ADDR_PATTERN = \[(?P<ipv6>[^\]]+)\]|(?P<ipv4>\d+\.\d+\.\d+\.\d+)
  // ---------------------------------------------------------------------

  /** `\d+\.` at `i`: the position after the dot. Digits and dots are disjoint,
      so the greedy `\d+` can only end at the end of the digit run. */
  function DigitsDot(s: string, i: nat): (r: Option<nat>)
    requires i <= |s|
    ensures r.Some? ==> i + 2 <= r.value <= |s| && s[r.value - 1] == '.'
  {
    var e := RunEnd(s, i, IsDigit);
    if e == i || e == |s| || s[e] != '.' then None else Some(e + 1)
  }

  /** The end of a dotted quad `\d+\.\d+\.\d+\.\d+` starting at `i`. */
  function DottedQuadEnd(s: string, i: nat): (r: Option<nat>)
    requires i <= |s|
    ensures r.Some? ==> i < r.value <= |s|
  {
    match DigitsDot(s, i)
    case None => None
    case Some(a) =>
      match DigitsDot(s, a)
      case None => None
      case Some(b) =>
        match DigitsDot(s, b)
        case None => None
        case Some(c) =>
          var e := RunEnd(s, c, IsDigit);
          if e == c then None else Some(e)
  }

  /** The `ipv6` or `ipv4` group of `_ADDR_PATTERN` matched at position `i`,
      the bracket alternative being tried first. */
  function AddrAt(s: string, i: int): Option<string> {
    if i < 0 || i >= |s| then None
    else if s[i] == '[' && IndexOfFrom(s, ']', i + 1).Some? && IndexOfFrom(s, ']', i + 1).value > i + 1 then
      Some(s[i + 1..IndexOfFrom(s, ']', i + 1).value])
    else
      match DottedQuadEnd(s, i)
      case Some(e) => Some(s[i..e])
      case None => None
  }

  /** The leftmost match at or after `i`, or none when `r` is `None`. */
  predicate LeftmostAddr(s: string, i: nat, r: Option<string>) {
    && (r.Some? ==> exists j | i <= j < |s| ::
                      AddrAt(s, j) == r && forall k | i <= k < j :: AddrAt(s, k).None?)
    && (r.None? ==> forall k | i <= k < |s| :: AddrAt(s, k).None?)
  }

  /** With no match at `i`, the leftmost match after `i` is the leftmost from `i`. */
  lemma LeftmostAddrStep(s: string, i: nat, r: Option<string>)
    requires i < |s| && AddrAt(s, i).None? && LeftmostAddr(s, i + 1, r)
    ensures LeftmostAddr(s, i, r)
  {
    if r.Some? {
      var j :| i + 1 <= j < |s| && AddrAt(s, j) == r && forall k | i + 1 <= k < j :: AddrAt(s, k).None?;
      assert forall k | i <= k < j :: AddrAt(s, k).None?;
    }
  }

  /** `_ADDR_PATTERN.search(s[i:])`: the group of the leftmost match at or after `i`. */
  function SearchAddr(s: string, i: nat): (r: Option<string>)
    requires i <= |s|
    ensures r.Some? ==> exists j | i <= j < |s| ::
                          AddrAt(s, j) == r && forall k | i <= k < j :: AddrAt(s, k).None?
    ensures r.None? ==> forall k | i <= k < |s| :: AddrAt(s, k).None?
    decreases |s| - i
  {
    if i == |s| then None
    else if AddrAt(s, i).Some? then AddrAt(s, i)
    else
      var r := SearchAddr(s, i + 1);
      LeftmostAddrStep(s, i, r);
      r
  }

  /** `_extract_address`: the leftmost bracketed contents or dotted quad,
      else the text before the first colon, else the input. */
  function ExtractAddress(v: string): (r: string)
    ensures (exists i :: AddrAt(v, i).Some?) ==>
              exists i | 0 <= i < |v| :: AddrAt(v, i) == Some(r) && forall k | 0 <= k < i :: AddrAt(v, k).None?
    ensures (forall i :: AddrAt(v, i).None?) && ':' in v ==> ':' !in r && StartsWith(v, r + ":")
    ensures (forall i :: AddrAt(v, i).None?) && ':' !in v ==> r == v
    ensures |r| <= |v|
  {
    match SearchAddr(v, 0)
    case Some(a) => a
    case None =>
      match IndexOfFrom(v, ':', 0)
      case Some(k) =>
        assert v[..k + 1] == v[..k] + ":";
        v[..k]
      case None => v
  }

  /** `_ADDR_PATTERN.search(v)` reduced to its group, or `v` itself when
      nothing matches (the JSON `ip` candidate path, which never splits at a colon). */
  function AddrOrSelf(v: string): (r: string)
    ensures (forall i :: AddrAt(v, i).None?) ==> r == v
    ensures (exists i :: AddrAt(v, i).Some?) ==> r == ExtractAddress(v)
  {
    match SearchAddr(v, 0)
    case Some(a) => a
    case None => v
  }

  /** `_address_is_loopback`. */
  predicate IsLoopback(v: string) {
    if v == "" then false
    else
      var a := ExtractAddress(v);
      if a == "" then false
      else StartsWith(a, "127.") || a == "::1" || Lower(a) == "localhost"
  }

  /** The empty-string guards of `_address_is_loopback` change nothing: the test
      is exactly a test of the extracted address. */
  lemma LoopbackIff(v: string)
    ensures IsLoopback(v) <==>
      var a := ExtractAddress(v);
      StartsWith(a, "127.") || a == "::1" || Lower(a) == "localhost"
  {
    var a := ExtractAddress(v);
    if v == "" {
      assert a == "";
    }
    if a == "" {
      assert !StartsWith(a, "127.");
      assert Lower(a) == "";
    }
  }

  // ---------------------------------------------------------------------
  // _split_target_fields
  // ---------------------------------------------------------------------

  datatype Target = Target(transport: string, host: string, port: Option<nat>)

  predicate HasTransportPrefix(v: string) {
    StartsWith(v, "tcp:") || StartsWith(v, "udp:") || StartsWith(v, "unix:")
  }

  /** The `partition(":")` of a target carrying a known transport prefix. */
  function StripTransport(v: string): (r: (string, string))
    ensures r.0 == "" || r.0 == "tcp" || r.0 == "udp" || r.0 == "unix"
    ensures r.0 == "" <==> !HasTransportPrefix(v)
    ensures r.0 == "" ==> r.1 == v
    ensures r.0 != "" ==> v == r.0 + ":" + r.1
  {
    if StartsWith(v, "tcp:") then
      assert v == "tcp" + ":" + v[4..];
      ("tcp", v[4..])
    else if StartsWith(v, "udp:") then
      assert v == "udp" + ":" + v[4..];
      ("udp", v[4..])
    else if StartsWith(v, "unix:") then
      assert v == "unix" + ":" + v[5..];
      ("unix", v[5..])
    else ("", v)
  }

  /** Host and port of a target with its transport removed. */
  function SplitHostPort(rem: string): (r: (string, Option<nat>))
    // A present port is the decimal value of the digits after `]:` or after the last colon.
    ensures r.1.Some? ==> exists d | IsDigits(d) ::
              && r.1.value == DigitsValue(d)
              && (|| (rem == "[" + r.0 + "]:" + d && ']' !in r.0)
                  || (rem == r.0 + ":" + d && !StartsWith(rem, "[")))
    // A closed bracket gives its contents as the host, whatever follows it.
    ensures StartsWith(rem, "[") && ']' in rem ==>
              ']' !in r.0 && StartsWith(rem, "[" + r.0 + "]")
    // Otherwise, without a port, the host is the whole remainder.
    ensures !(StartsWith(rem, "[") && ']' in rem) && r.1.None? ==> r.0 == rem
  {
    if StartsWith(rem, "[") then
      match IndexOfFrom(rem, ']', 0)
      case None => (rem, None)
      case Some(end) =>
        var host := rem[1..end];
        var rest := rem[end + 1..];
        assert rem[..end + 1] == "[" + host + "]";
        if StartsWith(rest, ":") && IsDigits(rest[1..]) then
          assert rem == "[" + host + "]:" + rest[1..];
          (host, Some(DigitsValue(rest[1..])))
        else (host, None)
    else
      match LastIndexOf(rem, ':')
      case None => (rem, None)
      case Some(k) =>
        var maybePort := rem[k + 1..];
        if IsDigits(maybePort) then
          assert rem == rem[..k] + ":" + maybePort;
          (rem[..k], Some(DigitsValue(maybePort)))
        else (rem, None)
  }

  /** `_split_target_fields`. */
  function SplitTarget(v: string): (r: Target)
    ensures r.transport == "" || r.transport == "tcp" || r.transport == "udp" || r.transport == "unix"
    ensures r.transport != "" <==> HasTransportPrefix(v)
  {
    var (transport, rem) := StripTransport(v);
    var (host, port) := SplitHostPort(rem);
    Target(transport, host, port)
  }
}
