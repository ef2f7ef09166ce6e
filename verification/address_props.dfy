/** Inverse and test-pinned properties of the address and target helpers. */
module AddressProps {
  import opened Wrappers
  import opened Text
  import opened Address

  /** `host:digits` splits back into the host and the digits' value. */
  lemma {:induction false} HostPortRoundTrip(h: string, d: string)
    requires IsDigits(d) && !StartsWith(h, "[")
    ensures SplitHostPort(h + ":" + d) == (h, Some(DigitsValue(d)))
  {
    var rem := h + ":" + d;
    assert !StartsWith(rem, "[") by {
      if |h| > 0 { assert rem[0] == h[0]; } else { assert rem[0] == ':'; }
    }
    assert rem[|h|] == ':';
    assert forall j | |h| < j < |rem| :: rem[j] == d[j - |h| - 1];
    assert forall j | |h| < j < |rem| :: rem[j] != ':';
    assert LastIndexOf(rem, ':') == Some(|h|);
    assert rem[..|h|] == h && rem[|h| + 1..] == d;
  }

  /** `[host]:digits` splits back into the bracket contents and the digits' value. */
  lemma {:induction false} BracketHostPortRoundTrip(h: string, d: string)
    requires IsDigits(d) && ']' !in h
    ensures SplitHostPort("[" + h + "]:" + d) == (h, Some(DigitsValue(d)))
  {
    var rem := "[" + h + "]:" + d;
    assert StartsWith(rem, "[");
    assert rem[|h| + 1] == ']';
    assert rem[0] == '[';
    assert forall j | 0 < j < |h| + 1 :: rem[j] == h[j - 1];
    assert forall j | 0 <= j < |h| + 1 :: rem[j] != ']';
    assert IndexOfFrom(rem, ']', 0) == Some(|h| + 1);
    assert rem[1..|h| + 1] == h;
    assert rem[|h| + 2..] == ":" + d;
    assert (":" + d)[1..] == d;
  }

  /** A remainder with no colon and no bracket is all host and has no port. */
  lemma BareHost(h: string)
    requires ':' !in h && !StartsWith(h, "[")
    ensures SplitHostPort(h) == (h, None)
  {
    assert forall j | 0 <= j < |h| :: h[j] != ':';
  }

  /** A known transport prefix is split off and the rest is parsed as host and port. */
  lemma TransportRoundTrip(t: string, rem: string)
    requires t == "tcp" || t == "udp" || t == "unix"
    ensures SplitTarget(t + ":" + rem) == Target(t, SplitHostPort(rem).0, SplitHostPort(rem).1)
  {
    var v := t + ":" + rem;
    assert HasTransportPrefix(v) by {
      assert v[..|t| + 1] == t + ":";
    }
    var (t', rem') := StripTransport(v);
    assert v == t' + ":" + rem';
    assert |t'| == |t| by {
      if t == "unix" { assert v[3] == 'x'; } else { assert v[3] == ':'; }
    }
    assert t' == v[..|t|] == t;
    assert rem' == v[|t| + 1..] == rem;
  }

  /** A target whose first character is not `t`, `u` is not transport-prefixed. */
  lemma NotTransportPrefixed(v: string)
    requires |v| > 0 && v[0] != 't' && v[0] != 'u'
    ensures !HasTransportPrefix(v)
  {
  }

  /** `ping0.cc:443` gives host `ping0.cc` and port 443 (the first unit test). */
  lemma PlainTargetExample()
    ensures SplitTarget("ping0.cc:443") == Target("", "ping0.cc", Some(443))
  {
    var v := "ping0.cc:443";
    NotTransportPrefixed(v);
    assert v == "ping0.cc" + ":" + "443";
    assert !StartsWith("ping0.cc", "[");
    HostPortRoundTrip("ping0.cc", "443");
    assert DigitsValue("443") == 443 by {
      assert "443"[..2] == "44" && "44"[..1] == "4" && "4"[..0] == "";
    }
  }

  /** Port 0 is a present port, distinct from an absent one (the UDP-over-TCP probe test). */
  lemma ZeroPortExample()
    ensures SplitTarget("sp.v2.udp-over-tcp.arpa:0") == Target("", "sp.v2.udp-over-tcp.arpa", Some(0))
  {
    var v := "sp.v2.udp-over-tcp.arpa:0";
    NotTransportPrefixed(v);
    assert v == "sp.v2.udp-over-tcp.arpa" + ":" + "0";
    assert !StartsWith("sp.v2.udp-over-tcp.arpa", "[") by {
      assert "sp.v2.udp-over-tcp.arpa"[0] == 's';
    }
    HostPortRoundTrip("sp.v2.udp-over-tcp.arpa", "0");
    assert DigitsValue("0") == 0 by {
      assert "0"[..0] == "";
    }
  }

  /** `443` reads as 443. */
  lemma Digits443()
    ensures IsDigits("443") && DigitsValue("443") == 443
  {
    assert "443"[..2] == "44" && "44"[..1] == "4" && "4"[..0] == "";
  }

  /** A transport, a host and a port split back into their parts. */
  lemma TransportHostPort(t: string, h: string, d: string)
    requires t == "tcp" || t == "udp" || t == "unix"
    requires IsDigits(d) && !StartsWith(h, "[")
    ensures SplitTarget(t + ":" + (h + ":" + d)) == Target(t, h, Some(DigitsValue(d)))
  {
    TransportRoundTrip(t, h + ":" + d);
    HostPortRoundTrip(h, d);
  }

  /** A host after `tcp:` and before `:443`. */
  lemma TcpHost443(h: string)
    requires !StartsWith(h, "[")
    ensures SplitTarget("tcp:" + h + ":443") == Target("tcp", h, Some(443))
  {
    Digits443();
    TransportHostPort("tcp", h, "443");
    assert "tcp:" + h + ":443" == "tcp" + ":" + (h + ":" + "443");
  }

  /** `tcp:ipv6.ping0.cc:443` gives `("tcp", "ipv6.ping0.cc", 443)` (the transport-prefix test). */
  lemma TransportTargetExample(h: string)
    requires h == "ipv6.ping0.cc"
    ensures SplitTarget("tcp:" + h + ":443") == Target("tcp", h, Some(443))
  {
    assert h[0] == 'i';
    TcpHost443(h);
  }

  /** A bare `::1` is not loopback: it matches neither address pattern and its
      text before the first colon is empty. */
  lemma BareIpv6LoopbackMissed()
    ensures ExtractAddress("::1") == ""
    ensures !IsLoopback("::1")
  {
    var v := "::1";
    forall i
      ensures AddrAt(v, i).None?
    {
      if 0 <= i < 3 {
        assert v[i] != '[';
        var e := RunEnd(v, i, IsDigit);
        assert e == i || e == 3;
      }
    }
    assert SearchAddr(v, 0).None?;
    assert IndexOfFrom(v, ':', 0) == Some(0);
  }

  /** The same address in brackets is loopback. */
  lemma BracketedIpv6Loopback()
    ensures ExtractAddress("[::1]:443") == "::1"
    ensures IsLoopback("[::1]:443")
  {
    var v := "[::1]:443";
    assert IndexOfFrom(v, ']', 1) == Some(4);
    assert v[1..4] == "::1";
    assert AddrAt(v, 0) == Some("::1");
  }

  /** The source address of the internal API log line is loopback. */
  lemma Ipv4LoopbackExample()
    ensures ExtractAddress("127.0.0.1:33122") == "127.0.0.1"
    ensures IsLoopback("127.0.0.1:33122")
  {
    var v := "127.0.0.1:33122";
    assert v[..10] == "127.0.0.1:";
    LoopbackColonPrefix(v);
  }

  /** The characters of `127.0.0.1:` at the start of `v`. */
  lemma LoopbackPrefixChars(v: string)
    requires StartsWith(v, "127.0.0.1:")
    ensures |v| >= 10
    ensures v[0] == '1' && v[1] == '2' && v[2] == '7' && v[3] == '.' && v[4] == '0'
    ensures v[5] == '.' && v[6] == '0' && v[7] == '.' && v[8] == '1' && v[9] == ':'
    ensures v[0..9] == "127.0.0.1"
  {
    assert v[..10] == "127.0.0.1:";
  }

  /** The dotted quad `127.0.0.1` matches at the start of `v`. */
  lemma LoopbackQuadAtStart(v: string)
    requires StartsWith(v, "127.0.0.1:")
    ensures AddrAt(v, 0) == Some("127.0.0.1")
  {
    LoopbackPrefixChars(v);
    RunEndAt(v, 0, IsDigit, 3);
    RunEndAt(v, 4, IsDigit, 5);
    RunEndAt(v, 6, IsDigit, 7);
    RunEndAt(v, 8, IsDigit, 9);
    assert DigitsDot(v, 0) == Some(4);
    assert DigitsDot(v, 4) == Some(6);
    assert DigitsDot(v, 6) == Some(8);
    assert DottedQuadEnd(v, 0) == Some(9);
  }

  /** Any value that starts with `127.0.0.1:` extracts to `127.0.0.1` and is
      loopback, whatever follows the colon. */
  lemma {:induction false} LoopbackColonPrefix(v: string)
    requires StartsWith(v, "127.0.0.1:")
    ensures ExtractAddress(v) == "127.0.0.1"
    ensures IsLoopback(v)
  {
    LoopbackQuadAtStart(v);
    assert "127.0.0.1"[..4] == "127.";
  }

  /** The characters of `58.152.53.88` at the start of `v`. */
  lemma RegularQuadChars(v: string)
    requires StartsWith(v, "58.152.53.88")
    ensures |v| >= 12
    ensures v[0] == '5' && v[1] == '8' && v[2] == '.' && v[3] == '1' && v[4] == '5' && v[5] == '2'
    ensures v[6] == '.' && v[7] == '5' && v[8] == '3' && v[9] == '.' && v[10] == '8' && v[11] == '8'
    ensures v[0..12] == "58.152.53.88"
  {
    assert v[..12] == "58.152.53.88";
  }

  /** The dotted quad `58.152.53.88` matches at the start of `v` when a colon
      or the end of `v` follows it. */
  lemma RegularQuadAtStart(v: string)
    requires StartsWith(v, "58.152.53.88") && (|v| == 12 || v[12] == ':')
    ensures AddrAt(v, 0) == Some("58.152.53.88")
  {
    RegularQuadChars(v);
    RunEndAt(v, 0, IsDigit, 2);
    RunEndAt(v, 3, IsDigit, 6);
    RunEndAt(v, 7, IsDigit, 9);
    RunEndAt(v, 10, IsDigit, 12);
    assert DigitsDot(v, 0) == Some(3);
    assert DigitsDot(v, 3) == Some(7);
    assert DigitsDot(v, 7) == Some(10);
    assert DottedQuadEnd(v, 0) == Some(12);
  }

  /** A match at the very start is the extracted address. */
  lemma MatchAtStartExtracted(v: string)
    requires AddrAt(v, 0).Some?
    ensures ExtractAddress(v) == AddrAt(v, 0).value
  {
    assert SearchAddr(v, 0) == AddrAt(v, 0);
  }

  /** `58.152.53.88` is not a loopback address. */
  lemma RegularAddressNotLoopback(v: string)
    requires ExtractAddress(v) == "58.152.53.88"
    ensures !IsLoopback(v)
  {
    LoopbackIff(v);
    RegularQuadNotLoopback(ExtractAddress(v));
  }

  lemma RegularQuadNotLoopback(a: string)
    requires a == "58.152.53.88"
    ensures !(StartsWith(a, "127.") || a == "::1" || Lower(a) == "localhost")
  {
    assert a[0] == '5';
    assert |Lower(a)| != |"localhost"|;
  }

  /** The client address of the unit tests, bare or with its port, extracts to
      `58.152.53.88`, which is not loopback. */
  lemma RegularAddressExample(v: string)
    requires v == "58.152.53.88" || v == "58.152.53.88:52986"
    ensures ExtractAddress(v) == "58.152.53.88"
    ensures !IsLoopback(v)
  {
    var q := "58.152.53.88";
    assert StartsWith(v, q) && (|v| == 12 || v[12] == ':') by {
      if v == q {
      } else {
        assert v == q + ":52986";
        assert v[..12] == q;
      }
    }
    RegularQuadAtStart(v);
    MatchAtStartExtracted(v);
    RegularAddressNotLoopback(v);
  }
}
