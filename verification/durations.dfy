/**
 * The two duration formatters of the application and their common inverse.
 *
 * The timekeeping views print every duration as three parts, `"{h}h {m}m {s}s"`;
 * the activity table prints a compact form that leaves out every zero part
 * and falls back to `"0s"`. Both truncate to whole seconds. `ParseDuration`
 * reads either form back to a number of whole seconds.
 */
module Durations {
  import opened Text
  import opened Options

  const MsPerSecond := 1000
  const MsPerMinute := 60_000
  const MsPerHour := 3_600_000

  datatype Hms = Hms(hours: nat, minutes: nat, seconds: nat) {
    function TotalSeconds(): nat {
      hours * 3600 + minutes * 60 + seconds
    }
  }

  /** Splitting as the three-part formatter does it: from milliseconds directly. */
  function SplitMs(ms: nat): Hms {
    Hms(ms / MsPerHour, (ms % MsPerHour) / MsPerMinute, (ms % MsPerMinute) / MsPerSecond)
  }

  /** Splitting as the compact formatter does it: from whole seconds. */
  function SplitSeconds(ms: nat): Hms {
    var total := ms / MsPerSecond;
    Hms(total / 3600, (total % 3600) / 60, total % 60)
  }

  /**
   * Both ways of splitting agree, and both are the unique decomposition of the
   * whole seconds of `ms` with minutes and seconds below 60.
   */
  lemma SplitsAgree(ms: nat)
    ensures SplitMs(ms) == SplitSeconds(ms)
    ensures SplitMs(ms).minutes < 60 && SplitMs(ms).seconds < 60
    ensures SplitMs(ms).TotalSeconds() == ms / MsPerSecond
  {
    var q := ms / 1000;
    var r := ms % 1000;
    HourPart(ms, q / 3600, 1000 * (q % 3600) + r);
    var x := q % 3600;
    MinutePart(ms % MsPerHour, x / 60, 1000 * (x % 60) + r);
    MinuteRemainder(ms, 60 * (q / 3600) + x / 60, 1000 * (x % 60) + r);
    SecondPart(1000 * (x % 60) + r, x % 60, r);
  }

  lemma HourPart(ms: nat, h: nat, rest: nat)
    requires ms == 3_600_000 * h + rest && rest < 3_600_000
    ensures ms / MsPerHour == h && ms % MsPerHour == rest
  {
  }

  lemma MinutePart(y: nat, m: nat, rest: nat)
    requires y == 60_000 * m + rest && rest < 60_000
    ensures y / MsPerMinute == m
  {
  }

  lemma MinuteRemainder(ms: nat, m: nat, rest: nat)
    requires ms == 60_000 * m + rest && rest < 60_000
    ensures ms % MsPerMinute == rest
  {
  }

  lemma SecondPart(y: nat, s: nat, r: nat)
    requires y == 1000 * s + r && r < 1000
    ensures y / MsPerSecond == s
  {
  }

  /** One rendered part: a number followed by its unit letter. */
  function Token(n: nat, unit: char): string {
    NatToString(n) + [unit]
  }

  /** The verbose formatter of the timekeeping views: always three parts. */
  function FormatDuration(ms: nat): string {
    FullText(SplitMs(ms))
  }

  function FullText(p: Hms): string {
    Token(p.hours, 'h') + " " + Token(p.minutes, 'm') + " " + Token(p.seconds, 's')
  }

  /** The compact formatter of the activity table: zero parts are dropped. */
  function CompactDuration(ms: nat): string {
    CompactText(SplitSeconds(ms))
  }

  /** The parts of the compact form, as (count, unit) pairs. */
  function CompactTokens(p: Hms): seq<(nat, char)> {
    (if p.hours > 0 then [(p.hours, 'h')] else [])
    + (if p.minutes > 0 then [(p.minutes, 'm')] else [])
    + (if p.seconds > 0 then [(p.seconds, 's')] else [])
  }

  function CompactText(p: Hms): string {
    var parts := Tokens(CompactTokens(p));
    if |parts| > 0 then Join(parts) else "0s"
  }

  /** `parts.join(" ")`. */
  function Join(parts: seq<string>): string
    requires |parts| > 0
  {
    if |parts| == 1 then parts[0] else parts[0] + " " + Join(parts[1..])
  }

  function UnitSeconds(c: char): Option<nat> {
    if c == 'h' then Some(3600)
    else if c == 'm' then Some(60)
    else if c == 's' then Some(1)
    else None
  }

  /** The value of the leading part `"{n}{unit}"` of `s`, and what follows it. */
  function ParseHead(s: string): (r: Option<(nat, string)>)
    ensures r.Some? ==> |r.value.1| < |s|
  {
    var k := DigitRun(s);
    if k == 0 || k == |s| || UnitSeconds(s[k]).None? then None
    else Some((ParseNat(s[..k]) * UnitSeconds(s[k]).value, s[k + 1..]))
  }

  /**
   * Reads a space-separated list of parts `"{n}{unit}"` with units h, m, s
   * back to a number of seconds; None for anything else.
   */
  function ParseDuration(s: string): Option<nat>
    decreases |s|
  {
    var head := ParseHead(s);
    if head.None? then None
    else if head.value.1 == [] then Some(head.value.0)
    else if head.value.1[0] != ' ' then None
    else
      var tail := ParseDuration(head.value.1[1..]);
      if tail.None? then None else Some(head.value.0 + tail.value)
  }

  // A token list: (count, unit letter) pairs; its value and its rendering.

  predicate ValidUnits(ts: seq<(nat, char)>) {
    forall i :: 0 <= i < |ts| ==> UnitSeconds(ts[i].1).Some?
  }

  function TokensValue(ts: seq<(nat, char)>): nat
    requires ValidUnits(ts)
  {
    if |ts| == 0 then 0 else ts[0].0 * UnitSeconds(ts[0].1).value + TokensValue(ts[1..])
  }

  function Tokens(ts: seq<(nat, char)>): (r: seq<string>)
    ensures |r| == |ts|
  {
    if |ts| == 0 then [] else [Token(ts[0].0, ts[0].1)] + Tokens(ts[1..])
  }

  lemma TokenSplit(n: nat, u: char, tail: string)
    requires UnitSeconds(u).Some?
    requires |tail| > 0 ==> tail[0] == ' '
    ensures DigitRun(Token(n, u) + tail) == |NatToString(n)|
    ensures (Token(n, u) + tail)[..|NatToString(n)|] == NatToString(n)
    ensures (Token(n, u) + tail)[|NatToString(n)|] == u
    ensures (Token(n, u) + tail)[|NatToString(n)| + 1..] == tail
  {
    var d := NatToString(n);
    assert Token(n, u) + tail == d + ([u] + tail);
    DigitRunOfDigits(d, [u] + tail);
  }

  /** The leading part of a rendered token is read back with its value. */
  lemma ParseHeadToken(n: nat, u: char, tail: string)
    requires UnitSeconds(u).Some?
    requires |tail| > 0 ==> tail[0] == ' '
    ensures ParseHead(Token(n, u) + tail) == Some((n * UnitSeconds(u).value, tail))
  {
    var s := Token(n, u) + tail;
    var k := |NatToString(n)|;
    TokenSplit(n, u, tail);
    ParseNatToString(n);
    assert ParseNat(s[..k]) == n;
  }

  /** Rendering a token list and reading it back gives the list's value. */
  lemma {:induction false} ParseJoinedTokens(ts: seq<(nat, char)>)
    requires |ts| > 0 && ValidUnits(ts)
    ensures ParseDuration(Join(Tokens(ts))) == Some(TokensValue(ts))
  {
    if |ts| == 1 {
      ParseOne(ts);
    } else {
      assert ValidUnits(ts[1..]) by {
        forall i | 0 <= i < |ts[1..]| ensures UnitSeconds(ts[1..][i].1).Some? {
          assert ts[1..][i] == ts[i + 1];
        }
      }
      ParseJoinedTokens(ts[1..]);
      ParseCons(ts);
    }
  }

  lemma ParseOne(ts: seq<(nat, char)>)
    requires |ts| == 1 && ValidUnits(ts)
    ensures ParseDuration(Join(Tokens(ts))) == Some(TokensValue(ts))
  {
    var n := ts[0].0;
    var u := ts[0].1;
    ParseSingle(n, u);
    assert Join(Tokens(ts)) == Token(n, u);
    assert TokensValue(ts) == n * UnitSeconds(u).value + TokensValue(ts[1..]);
  }

  lemma ParseCons(ts: seq<(nat, char)>)
    requires |ts| > 1 && ValidUnits(ts)
    requires ParseDuration(Join(Tokens(ts[1..]))) == Some(TokensValue(ts[1..]))
    ensures ParseDuration(Join(Tokens(ts))) == Some(TokensValue(ts))
  {
    var n := ts[0].0;
    var u := ts[0].1;
    var rest := Join(Tokens(ts[1..]));
    var w := TokensValue(ts[1..]);
    calc {
      ParseDuration(Join(Tokens(ts)));
      == { JoinTokensCons(ts); }
      ParseDuration(Token(n, u) + (" " + rest));
      == { ParseStep(n, u, rest, w); }
      Some(n * UnitSeconds(u).value + w);
      == { assert TokensValue(ts) == n * UnitSeconds(u).value + w; }
      Some(TokensValue(ts));
    }
  }

  lemma ParseSingle(n: nat, u: char)
    requires UnitSeconds(u).Some?
    ensures ParseDuration(Token(n, u)) == Some(n * UnitSeconds(u).value)
  {
    var v := n * UnitSeconds(u).value;
    var head := ParseHead(Token(n, u));
    assert head == Some((v, "")) by {
      ParseHeadToken(n, u, "");
      assert Token(n, u) + "" == Token(n, u);
    }
  }

  lemma JoinTokensCons(ts: seq<(nat, char)>)
    requires |ts| > 1
    ensures Join(Tokens(ts)) == Token(ts[0].0, ts[0].1) + (" " + Join(Tokens(ts[1..])))
  {
    var t := Tokens(ts);
    assert t == [Token(ts[0].0, ts[0].1)] + Tokens(ts[1..]);
    assert t[1..] == Tokens(ts[1..]);
    assert Join(t) == t[0] + " " + Join(t[1..]);
  }

  /** A token, a space, and the rest: the token's value plus the rest's. */
  lemma ParseStep(n: nat, u: char, rest: string, w: nat)
    requires UnitSeconds(u).Some? && ParseDuration(rest) == Some(w)
    ensures ParseDuration(Token(n, u) + (" " + rest)) == Some(n * UnitSeconds(u).value + w)
  {
    var tail := " " + rest;
    var v := n * UnitSeconds(u).value;
    var s := Token(n, u) + tail;
    var head := ParseHead(s);
    assert head == Some((v, tail)) by {
      ParseHeadToken(n, u, tail);
    }
    assert tail != [] && tail[0] == ' ' && tail[1..] == rest;
    assert ParseDuration(head.value.1[1..]) == Some(w);
  }

  /** The verbose form reads back to the whole seconds of the duration. */
  lemma FormatDurationRoundTrip(ms: nat)
    ensures ParseDuration(FormatDuration(ms)) == Some(ms / MsPerSecond)
  {
    FullTextRoundTrip(SplitMs(ms));
    SplitsAgree(ms);
  }

  lemma FullTextRoundTrip(p: Hms)
    ensures ParseDuration(FullText(p)) == Some(p.TotalSeconds())
  {
    FullTextIsJoin(p);
    ParseJoinedTokens(FullTokens(p));
    FullTokensValue(p);
  }

  /** The verbose form's parts, as (count, unit) pairs. */
  function FullTokens(p: Hms): seq<(nat, char)> {
    [(p.hours, 'h'), (p.minutes, 'm'), (p.seconds, 's')]
  }

  lemma FullTextIsJoin(p: Hms)
    ensures FullText(p) == Join(Tokens(FullTokens(p)))
  {
    var parts := [Token(p.hours, 'h'), Token(p.minutes, 'm'), Token(p.seconds, 's')];
    assert Tokens(FullTokens(p)) == parts;
    assert parts[1..][1..] == [Token(p.seconds, 's')];
    assert Join(parts[1..]) == Token(p.minutes, 'm') + " " + Token(p.seconds, 's');
  }

  lemma FullTokensValue(p: Hms)
    ensures TokensValue(FullTokens(p)) == p.TotalSeconds()
  {
    var ts: seq<(nat, char)> := FullTokens(p);
    assert TokensValue(ts[2..]) == p.seconds by {
      assert |ts[2..][1..]| == 0;
    }
    assert ts[1..][1..] == ts[2..];
  }

  /** The compact form reads back to the same whole seconds as the verbose form. */
  lemma CompactDurationRoundTrip(ms: nat)
    ensures ParseDuration(CompactDuration(ms)) == Some(ms / MsPerSecond)
  {
    SplitsAgree(ms);
    CompactTextRoundTrip(SplitSeconds(ms));
  }

  lemma CompactTextRoundTrip(p: Hms)
    ensures ParseDuration(CompactText(p)) == Some(p.TotalSeconds())
  {
    CompactTokensValue(p);
    if |CompactTokens(p)| > 0 {
      ParseJoinedTokens(CompactTokens(p));
    } else {
      ZeroParses();
    }
  }

  lemma ZeroParses()
    ensures ParseDuration("0s") == Some(0)
  {
    assert Join(Tokens([(0, 's')])) == "0s";
    ParseJoinedTokens([(0, 's')]);
  }

  /** The compact parts add up to the same seconds, and there are none only for a zero duration. */
  lemma CompactTokensValue(p: Hms)
    ensures ValidUnits(CompactTokens(p))
    ensures TokensValue(CompactTokens(p)) == p.TotalSeconds()
    ensures |CompactTokens(p)| == 0 <==> p == Hms(0, 0, 0)
  {
    var a: seq<(nat, char)> := if p.hours > 0 then [(p.hours, 'h')] else [];
    var b: seq<(nat, char)> := if p.minutes > 0 then [(p.minutes, 'm')] else [];
    var c: seq<(nat, char)> := if p.seconds > 0 then [(p.seconds, 's')] else [];
    assert CompactTokens(p) == a + (b + c);
    OptionalToken(p.hours, 'h');
    OptionalToken(p.minutes, 'm');
    OptionalToken(p.seconds, 's');
    TokensValueAppend(b, c);
    TokensValueAppend(a, b + c);
  }

  lemma OptionalToken(n: nat, u: char)
    requires UnitSeconds(u).Some?
    ensures ValidUnits(if n > 0 then [(n, u)] else [])
    ensures TokensValue(if n > 0 then [(n, u)] else []) == n * UnitSeconds(u).value
  {
    if n > 0 {
      assert [(n, u)][1..] == [];
    }
  }

  lemma {:induction false} TokensValueAppend(a: seq<(nat, char)>, b: seq<(nat, char)>)
    requires ValidUnits(a) && ValidUnits(b)
    ensures ValidUnits(a + b)
    ensures TokensValue(a + b) == TokensValue(a) + TokensValue(b)
  {
    if |a| > 0 {
      assert (a + b)[1..] == a[1..] + b;
      TokensValueAppend(a[1..], b);
    } else {
      assert a + b == b;
    }
  }

  /** Two durations print the same verbose text exactly when they have the same whole seconds. */
  lemma FormatDurationSameText(a: nat, b: nat)
    ensures FormatDuration(a) == FormatDuration(b) <==> a / MsPerSecond == b / MsPerSecond
  {
    FormatDurationRoundTrip(a);
    FormatDurationRoundTrip(b);
    SplitsAgree(a);
    SplitsAgree(b);
  }

  /** The compact text is never empty, and it is "0s" exactly for durations under a second. */
  lemma CompactDurationZero(ms: nat)
    ensures CompactDuration(ms) != ""
    ensures CompactDuration(ms) == "0s" <==> ms < MsPerSecond
  {
    CompactDurationRoundTrip(ms);
    ZeroSplit(ms);
    if CompactDuration(ms) == "0s" {
      assert Join(Tokens([(0, 's')])) == "0s";
      ParseJoinedTokens([(0, 's')]);
    }
  }

  /** A duration splits into all-zero parts exactly when it is under a second. */
  lemma ZeroSplit(ms: nat)
    ensures SplitSeconds(ms) == Hms(0, 0, 0) <==> ms < MsPerSecond
  {
    SplitsAgree(ms);
  }

  predicate HasUnit(ts: seq<(nat, char)>, c: char) {
    |ts| > 0 && (ts[0].1 == c || HasUnit(ts[1..], c))
  }

  lemma {:induction false} HasUnitAppend(a: seq<(nat, char)>, b: seq<(nat, char)>, c: char)
    ensures HasUnit(a + b, c) <==> HasUnit(a, c) || HasUnit(b, c)
  {
    if |a| > 0 {
      assert (a + b)[1..] == a[1..] + b;
      HasUnitAppend(a[1..], b, c);
    } else {
      assert a + b == b;
    }
  }

  lemma {:induction false} UnitInJoinedTokens(ts: seq<(nat, char)>, c: char)
    requires |ts| > 0
    requires !IsDigit(c) && c != ' '
    ensures c in Join(Tokens(ts)) <==> HasUnit(ts, c)
  {
    var t := Token(ts[0].0, ts[0].1);
    assert c in t <==> ts[0].1 == c by {
      assert t == NatToString(ts[0].0) + [ts[0].1];
    }
    if |ts| > 1 {
      assert Tokens(ts)[1..] == Tokens(ts[1..]);
      assert Join(Tokens(ts)) == t + " " + Join(Tokens(ts[1..]));
      UnitInJoinedTokens(ts[1..], c);
    } else {
      assert Join(Tokens(ts)) == t;
      assert ts[1..] == [];
    }
  }

  /**
   * The compact form drops every zero part, not only leading ones: a unit
   * letter appears exactly when its part is non-zero, except that a duration
   * under one second is printed as "0s".
   */
  lemma CompactDurationParts(ms: nat)
    ensures 'h' in CompactDuration(ms) <==> SplitSeconds(ms).hours > 0
    ensures 'm' in CompactDuration(ms) <==> SplitSeconds(ms).minutes > 0
    ensures 's' in CompactDuration(ms) <==> SplitSeconds(ms).seconds > 0 || ms < MsPerSecond
  {
    ZeroSplit(ms);
    CompactTextParts(SplitSeconds(ms));
  }

  lemma CompactTextParts(p: Hms)
    ensures 'h' in CompactText(p) <==> p.hours > 0
    ensures 'm' in CompactText(p) <==> p.minutes > 0
    ensures 's' in CompactText(p) <==> p.seconds > 0 || p == Hms(0, 0, 0)
  {
    var a: seq<(nat, char)> := if p.hours > 0 then [(p.hours, 'h')] else [];
    var b: seq<(nat, char)> := if p.minutes > 0 then [(p.minutes, 'm')] else [];
    var c: seq<(nat, char)> := if p.seconds > 0 then [(p.seconds, 's')] else [];
    var ts := CompactTokens(p);
    assert ts == a + b + c;
    forall u | u in "hms" ensures HasUnit(ts, u) <==> HasUnit(a, u) || HasUnit(b, u) || HasUnit(c, u) {
      HasUnitAppend(a + b, c, u);
      HasUnitAppend(a, b, u);
    }
    if |ts| > 0 {
      UnitInJoinedTokens(ts, 'h');
      UnitInJoinedTokens(ts, 'm');
      UnitInJoinedTokens(ts, 's');
    } else {
      assert CompactText(p) == "0s";
    }
  }
}
