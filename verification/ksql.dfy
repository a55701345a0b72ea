/**
 * The parts of singupy/ksql.py that do not talk to the kSQL server: the broker address the
 * manager normalises, the nested lookup `dict_dive`, `config.add_child`, and the plans of
 * create, drop and assert requests the configuration functions walk a configuration tree in.
 */
module Ksql {
  import opened Base
  import Decimal

  // ---------------------------------------------------------------------------------------------
  // Broker address
  // ---------------------------------------------------------------------------------------------

  /** The groups of the broker pattern: scheme (possibly empty), host, and the digits of the optional port. */
  datatype BrokerParts = BrokerParts(scheme: string, host: string, port: Option<string>)

  /**
   * Groups the pattern `^(https?://)?([^:]*)(:\d{3,7})?$` can produce: a known scheme or none,
   * a host without ':', and a port of three to seven digits.
   */
  predicate ValidParts(p: BrokerParts) {
    && (p.scheme == "" || p.scheme == "http://" || p.scheme == "https://")
    && ':' !in p.host
    && (p.port.Some? ==> PortDigits(p.port.value))
  }

  /** The text the groups were matched from. */
  function Render(p: BrokerParts): string {
    p.scheme + p.host + PortSuffix(p.port)
  }

  /** The scheme group: the optional `https?://` at the start, longest first. */
  function SchemeOf(s: string): (r: string)
    ensures r == "" || r == "http://" || r == "https://"
    ensures |r| <= |s| && s[..|r|] == r
  {
    if |s| >= 8 && s[..8] == "https://" then "https://"
    else if |s| >= 7 && s[..7] == "http://" then "http://"
    else ""
  }

  /** The position of the first ':' in `s`, if any. */
  function FirstColon(s: string): (r: Option<nat>)
    ensures r.None? ==> forall j :: 0 <= j < |s| ==> s[j] != ':'
    ensures r.Some? ==> r.value < |s| && s[r.value] == ':' && forall j :: 0 <= j < r.value ==> s[j] != ':'
    decreases |s|
  {
    if s == [] then None
    else if s[0] == ':' then Some(0)
    else match FirstColon(s[1..])
      case None => None
      case Some(i) => Some(i + 1)
  }

  /** A port group of three to seven digits. */
  predicate PortDigits(d: string) {
    3 <= |d| <= 7 && Decimal.AllDigits(d)
  }

  /** What follows the ':' must be the port's digits, then the end, where `$` also allows one final newline. */
  function PortOf(tail: string): (r: Option<string>)
    ensures r.Some? ==> PortDigits(r.value) && (tail == r.value || tail == r.value + "\n")
  {
    var digits := if tail != [] && tail[|tail| - 1] == '\n' then tail[..|tail| - 1] else tail;
    if PortDigits(digits) then Some(digits) else None
  }

  /** The text of the optional port group. */
  function PortSuffix(port: Option<string>): string {
    if port.Some? then ":" + port.value else ""
  }

  /** Host and port after the scheme: the host runs up to the first ':', or to the end when there is none. */
  function ParseAddress(rest: string): (r: Option<(string, Option<string>)>)
    ensures r.Some? ==> ':' !in r.value.0 && (r.value.1.Some? ==> PortDigits(r.value.1.value))
    ensures r.Some? ==> rest == r.value.0 + PortSuffix(r.value.1)
                        || (r.value.1.Some? && rest == r.value.0 + PortSuffix(r.value.1) + "\n")
  {
    match FirstColon(rest)
    case None => Some((rest, None))
    case Some(i) =>
      assert rest == rest[..i] + ":" + rest[i + 1..];
      match PortOf(rest[i + 1..])
      case None => None
      case Some(d) => Some((rest[..i], Some(d)))
  }

  /**
   * `re.search` with the broker pattern: the scheme group, then host and port. When the scheme
   * matched, giving it back never helps the match: the host would then stop at the scheme's
   * own ':', which no digit follows.
   */
  function ParseBroker(s: string): (r: Option<BrokerParts>)
    ensures r.Some? ==> ValidParts(r.value)
    ensures r.Some? ==> s == Render(r.value) || (r.value.port.Some? && s == Render(r.value) + "\n")
  {
    var scheme := SchemeOf(s);
    var rest := s[|scheme|..];
    match ParseAddress(rest)
    case None => None
    case Some(hp) =>
      RenderSplit(s, scheme, rest, BrokerParts(scheme, hp.0, hp.1));
      Some(BrokerParts(scheme, hp.0, hp.1))
  }

  lemma RenderSplit(s: string, scheme: string, rest: string, p: BrokerParts)
    requires |scheme| <= |s| && s[..|scheme|] == scheme && rest == s[|scheme|..] && p.scheme == scheme
    requires rest == p.host + PortSuffix(p.port) || rest == p.host + PortSuffix(p.port) + "\n"
    ensures rest == p.host + PortSuffix(p.port) ==> s == Render(p)
    ensures rest == p.host + PortSuffix(p.port) + "\n" ==> s == Render(p) + "\n"
  {
    assert s == scheme + rest;
  }

  /** In a scheme-less rendered broker every ':' is the port's: it directly follows the host and a digit comes next. */
  lemma ColonIsPorts(p: BrokerParts, k: nat)
    requires ValidParts(p) && p.scheme == "" && k + 1 < |Render(p)| && Render(p)[k] == ':'
    ensures k == |p.host| && p.port.Some? && Decimal.IsDigit(Render(p)[k + 1])
  {
    var s := Render(p);
    assert k >= |p.host|;
    assert p.port.Some?;
    assert s == p.host + ":" + p.port.value;
    assert k == |p.host|;
    assert s[k + 1] == p.port.value[0];
  }

  /** Without a scheme, a rendered broker does not start like one: its ':' would have to be a port's. */
  lemma NoSchemeRender(p: BrokerParts, nl: string)
    requires ValidParts(p) && p.scheme == "" && (nl == "" || nl == "\n")
    ensures SchemeOf(Render(p) + nl) == ""
  {
    var s := Render(p) + nl;
    var r := Render(p);
    assert |r| + 1 >= |s|;
    if |s| >= 7 {
      if r[4] == ':' {
        ColonIsPorts(p, 4);
      }
      assert s[..7][4] != ':' || s[..7][5] != '/';
    }
    if |s| >= 8 {
      if r[5] == ':' {
        ColonIsPorts(p, 5);
      }
      assert s[..8][5] != ':' || s[..8][6] != '/';
    }
  }

  /** The scheme group of a rendered broker, with or without a final newline, is the scheme it was rendered with. */
  lemma SchemeOfRender(p: BrokerParts, nl: string)
    requires ValidParts(p) && (nl == "" || nl == "\n")
    ensures SchemeOf(Render(p) + nl) == p.scheme
  {
    if p.scheme == "" {
      NoSchemeRender(p, nl);
    } else {
      var s := Render(p) + nl;
      assert s == p.scheme + (p.host + PortSuffix(p.port) + nl);
      if p.scheme == "http://" {
        assert s[..7] == "http://";
        assert s[4] == ':';
      } else {
        assert s[..8] == "https://";
      }
    }
  }

  /** The first ':' after a host without one is the one right behind the host. */
  lemma {:induction false} FirstColonAfterHost(host: string, tail: string)
    requires ':' !in host
    ensures FirstColon(host + ":" + tail) == Some(|host|)
    decreases |host|
  {
    var s := host + ":" + tail;
    if host == [] {
      assert s[0] == ':';
    } else {
      assert s[0] == host[0] && s[1..] == host[1..] + ":" + tail;
      FirstColonAfterHost(host[1..], tail);
    }
  }

  /** Port digits, with or without the final newline `$` allows, are read as the port. */
  lemma PortOfDigits(d: string, nl: string)
    requires PortDigits(d) && (nl == "" || nl == "\n")
    ensures PortOf(d + nl) == Some(d)
  {
    var tail := d + nl;
    if nl == "" {
      assert tail == d && Decimal.IsDigit(d[|d| - 1]);
    } else {
      assert tail[|tail| - 1] == '\n' && tail[..|tail| - 1] == d;
    }
  }

  /** The host and port groups are read back from their text, with or without a final newline after a port. */
  lemma ParseAddressRender(host: string, port: Option<string>, rest: string)
    requires ':' !in host && (port.Some? ==> PortDigits(port.value))
    requires rest == host + PortSuffix(port) || (port.Some? && rest == host + PortSuffix(port) + "\n")
    ensures ParseAddress(rest) == Some((host, port))
  {
    if port.None? {
      assert rest == host;
      assert forall j :: 0 <= j < |host| ==> host[j] != ':';
    } else {
      var d := port.value;
      var nl := if rest == host + PortSuffix(port) then "" else "\n";
      assert rest == host + ":" + (d + nl);
      FirstColonAfterHost(host, d + nl);
      assert rest[|host| + 1..] == d + nl;
      assert rest[..|host|] == host;
      PortOfDigits(d, nl);
    }
  }

  /** `re.search` on a text whose scheme group and the rest after it are known. */
  lemma ParseBrokerOf(s: string, p: BrokerParts)
    requires SchemeOf(s) == p.scheme && ParseAddress(s[|p.scheme|..]) == Some((p.host, p.port))
    ensures ParseBroker(s) == Some(p)
  {
  }

  /** Every valid set of groups is read back from its text: the broker pattern is unambiguous. */
  lemma ParseRender(p: BrokerParts)
    requires ValidParts(p)
    ensures ParseBroker(Render(p)) == Some(p)
  {
    var s := Render(p);
    var rest := p.host + PortSuffix(p.port);
    SchemeOfRender(p, "");
    assert s + "" == s;
    assert s[|p.scheme|..] == rest by {
      Assoc(p.scheme, p.host, PortSuffix(p.port));
    }
    ParseAddressRender(p.host, p.port, rest);
    ParseBrokerOf(s, p);
  }

  /** With an explicit port, `$` also accepts one trailing newline, which the port group leaves out. */
  lemma ParseRenderNewline(p: BrokerParts)
    requires ValidParts(p) && p.port.Some?
    ensures ParseBroker(Render(p) + "\n") == Some(p)
  {
    var s := Render(p) + "\n";
    var rest := p.host + PortSuffix(p.port) + "\n";
    SchemeOfRender(p, "\n");
    assert s[|p.scheme|..] == rest by {
      Assoc(p.scheme, p.host, PortSuffix(p.port));
      Assoc(p.scheme, p.host + PortSuffix(p.port), "\n");
    }
    ParseAddressRender(p.host, p.port, rest);
    ParseBrokerOf(s, p);
  }

  lemma Assoc(a: string, b: string, c: string)
    ensures a + (b + c) == a + b + c
  {
  }

  /** The number of ':' characters. */
  function Colons(s: string): nat
    decreases |s|
  {
    if s == [] then 0 else (if s[0] == ':' then 1 else 0) + Colons(s[1..])
  }

  lemma {:induction false} ColonsAppend(a: string, b: string)
    ensures Colons(a + b) == Colons(a) + Colons(b)
    decreases |a|
  {
    if a == [] {
      assert a + b == b;
    } else {
      assert (a + b)[0] == a[0] && (a + b)[1..] == a[1..] + b;
      ColonsAppend(a[1..], b);
    }
  }

  lemma {:induction false} NoColons(s: string)
    requires ':' !in s
    ensures Colons(s) == 0
    decreases |s|
  {
    if s != [] {
      NoColons(s[1..]);
    }
  }

  /** The ValueError of `manager.__init__` for a broker the pattern does not match. */
  datatype BrokerError = UnreadableBroker(broker: string)

  /** The port text used when the broker names none: `str(port)`. */
  function PortText(p: BrokerParts, port: int): string {
    if p.port.Some? then p.port.value else Decimal.ShowInt(port)
  }

  /**
   * The broker `manager.__init__` stores: the scheme dropped, the host kept, and the explicit
   * port or else the `port` argument (8088 by default) after a single ':'.
   */
  function Normalize(broker: string, port: int): (r: Result<string, BrokerError>)
    ensures r.Failure? <==> ParseBroker(broker).None?
    ensures r.Failure? ==> r.error == UnreadableBroker(broker)
    ensures r.Success? ==> Colons(r.value) == 1
  {
    match ParseBroker(broker)
    case None => Failure(UnreadableBroker(broker))
    case Some(p) =>
      var text := PortText(p, port);
      NoColons(p.host);
      NoColons(text);
      ColonsAppend(p.host, ":");
      ColonsAppend(p.host + ":", text);
      Success(p.host + ":" + text)
  }

  /** The default port of `manager`. */
  const DefaultPort: int := 8088

  /** A port number `str()` renders with three to seven digits. */
  predicate PortInRange(port: int) {
    100 <= port <= 9999999
  }

  function Pow10(k: nat): nat {
    if k == 0 then 1 else 10 * Pow10(k - 1)
  }

  lemma {:induction false} ShowNatAtMost(n: nat, k: nat)
    requires 1 <= k && n < Pow10(k)
    ensures |Decimal.ShowNat(n)| <= k
    decreases k
  {
    if n >= 10 {
      ShowNatAtMost(n / 10, k - 1);
    }
  }

  lemma {:induction false} ShowNatAtLeast(n: nat, k: nat)
    requires n >= Pow10(k)
    ensures |Decimal.ShowNat(n)| >= k + 1
    decreases k
  {
    if k > 0 {
      ShowNatAtLeast(n / 10, k - 1);
    }
  }

  /** `str(port)` of a port in range has three to seven digits. */
  lemma PortTextDigits(port: int)
    requires PortInRange(port)
    ensures PortDigits(Decimal.ShowInt(port))
  {
    assert Pow10(2) == 100 && Pow10(7) == 10000000;
    ShowNatAtLeast(port, 2);
    ShowNatAtMost(port, 7);
  }

  /**
   * The normalised broker reads back as a scheme-less host with an explicit port, and the same
   * host: whenever the port that was filled in has three to seven digits.
   */
  lemma NormalizeReadsBack(broker: string, port: int)
    requires Normalize(broker, port).Success? && PortInRange(port)
    ensures ParseBroker(Normalize(broker, port).value)
         == Some(BrokerParts("", ParseBroker(broker).value.host, Some(PortText(ParseBroker(broker).value, port))))
  {
    var p := ParseBroker(broker).value;
    var q := BrokerParts("", p.host, Some(PortText(p, port)));
    assert ValidParts(q) by {
      PortTextDigits(port);
    }
    assert Normalize(broker, port).value == Render(q) by {
      Assoc("", p.host, ":" + PortText(p, port));
      Assoc(p.host, ":", PortText(p, port));
    }
    ParseRender(q);
  }

  /** Normalising twice with the same port gives what normalising once gives. */
  lemma NormalizeIdempotent(broker: string, port: int)
    requires Normalize(broker, port).Success? && PortInRange(port)
    ensures Normalize(Normalize(broker, port).value, port) == Normalize(broker, port)
  {
    NormalizeReadsBack(broker, port);
  }

  /** The broker read from its groups loses its scheme and gets the port it names or else `port`. */
  lemma NormalizeRender(p: BrokerParts, port: int)
    requires ValidParts(p)
    ensures Normalize(Render(p), port) == Success(p.host + ":" + PortText(p, port))
    ensures p.port.Some? ==> Normalize(Render(p) + "\n", port) == Success(p.host + ":" + p.port.value)
  {
    ParseRender(p);
    if p.port.Some? {
      ParseRenderNewline(p);
    }
  }

  lemma ShowDefaultPort()
    ensures Decimal.ShowInt(DefaultPort) == "8088"
  {
    assert Decimal.ShowNat(8) == "8";
    assert Decimal.ShowNat(80) == "80";
    assert Decimal.ShowNat(808) == "808";
  }

  /** The scheme is dropped and the default port filled in. */
  lemma NormalizeDefaultPort(broker: string)
    requires broker == "http://localhost"
    ensures Normalize(broker, DefaultPort) == Success("localhost:8088")
  {
    var a := BrokerParts("http://", "localhost", None);
    assert "localhost" + ":" + "8088" == "localhost:8088";
    assert broker == Render(a);
    NormalizeRender(a, DefaultPort);
    ShowDefaultPort();
    assert PortText(a, DefaultPort) == "8088";
  }

  /** An explicit port is kept, and the scheme dropped. */
  lemma NormalizeExplicitPort(broker: string)
    requires broker == "https://ksql:8089"
    ensures Normalize(broker, DefaultPort) == Success("ksql:8089")
  {
    var b := BrokerParts("https://", "ksql", Some("8089"));
    assert "ksql" + ":" + "8089" == "ksql:8089";
    assert Decimal.AllDigits("8089");
    assert broker == Render(b);
    NormalizeRender(b, DefaultPort);
  }

  /** A two-digit port does not fit the pattern. */
  lemma NormalizeShortPort(broker: string)
    requires broker == "ksql:80"
    ensures Normalize(broker, DefaultPort) == Failure(UnreadableBroker(broker))
  {
    assert broker[0] == 'k';
    assert SchemeOf(broker) == "";
    assert broker == "ksql" + ":" + "80";
    FirstColonAfterHost("ksql", "80");
    assert broker[5..] == "80";
    assert PortOf("80") == None;
  }

  // ---------------------------------------------------------------------------------------------
  // dict_dive
  // ---------------------------------------------------------------------------------------------

  /** A decoded JSON value as Python holds it; `JNull` is Python's `None`. */
  datatype Json =
    | JNull
    | JBool(b: bool)
    | JNum(n: int)
    | JStr(s: string)
    | JList(items: seq<Json>)
    | JDict(entries: map<string, Json>)

  /** The failures of `dict_dive`: the assertion on either argument, or the IndexError of an empty key list. */
  datatype DiveError = NotADict | KeysNotADict | EmptyKeys

  /** `dictionary.get(key, None)`. */
  function Get(d: map<string, Json>, key: string): Json {
    if key in d then d[key] else JNull
  }

  /**
   * `dict_dive` as written: its second assertion demands that the key list be a dict, so every
   * key list, which its callers pass as a Python list, is rejected.
   */
  function DictDiveAsWritten(j: Json, keys: seq<string>, default: Json): (r: Result<Json, DiveError>)
    ensures r.Failure?
    ensures r.error == if j.JDict? then KeysNotADict else NotADict
  {
    if !j.JDict? then Failure(NotADict) else Failure(KeysNotADict)
  }

  /**
   * `dict_dive` with the key list checked to be a list: it follows the keys through nested
   * dicts and fails only on a non-dict argument or an empty key list. Below the top level it
   * never fails, since it only descends into a dict with keys left.
   */
  function DictDive(j: Json, keys: seq<string>, default: Json): (r: Result<Json, DiveError>)
    ensures r.Failure? <==> !j.JDict? || keys == []
    ensures r.Failure? ==> r.error == if j.JDict? then EmptyKeys else NotADict
    decreases |keys|
  {
    if !j.JDict? then Failure(NotADict)
    else if keys == [] then Failure(EmptyKeys)
    else
      var child := Get(j.entries, keys[0]);
      if child.JDict? && |keys| > 1 then DictDive(child, keys[1..], default)
      else if |keys| == 1 && child != JNull then Success(child)
      else Success(default)
  }

  /** The value at the end of a key path, when each step is a dict holding the next key. */
  function Lookup(j: Json, path: seq<string>): Option<Json>
    decreases |path|
  {
    if path == [] then Some(j)
    else if j.JDict? && path[0] in j.entries then Lookup(j.entries[path[0]], path[1..])
    else None
  }

  /** What a lookup yields when a missing path or a final `None` gives the default. */
  function OrDefault(o: Option<Json>, default: Json): Json {
    if o.Some? && o.value != JNull then o.value else default
  }

  /**
   * `dict_dive` gives the value at the end of the key path when every step exists and that
   * value is not `None`, and the default otherwise: a missing key, a non-dict met with keys
   * left, or a final `None`.
   */
  lemma {:induction false} DictDiveIsLookup(j: Json, keys: seq<string>, default: Json)
    requires j.JDict? && keys != []
    ensures DictDive(j, keys, default) == Success(OrDefault(Lookup(j, keys), default))
    decreases |keys|
  {
    var child := Get(j.entries, keys[0]);
    if |keys| > 1 {
      if child.JDict? {
        DictDiveIsLookup(child, keys[1..], default);
      } else if keys[0] in j.entries {
        assert Lookup(child, keys[1..]) == None;
      }
    }
  }

  /** Following `a + b` is following `a`, then `b` from wherever `a` led. */
  lemma {:induction false} LookupAppend(j: Json, a: seq<string>, b: seq<string>)
    ensures Lookup(j, a + b) == if Lookup(j, a).Some? then Lookup(Lookup(j, a).value, b) else None
    decreases |a|
  {
    if a == [] {
      assert a + b == b;
    } else {
      assert (a + b)[0] == a[0] && (a + b)[1..] == a[1..] + b;
      if j.JDict? && a[0] in j.entries {
        LookupAppend(j.entries[a[0]], a[1..], b);
      }
    }
  }

  /** Diving along `a + b` is diving along `b` from the dict that `a` leads to. */
  lemma DictDiveComposes(j: Json, a: seq<string>, b: seq<string>, default: Json)
    requires j.JDict? && a != [] && b != []
    requires Lookup(j, a).Some? && Lookup(j, a).value.JDict?
    ensures DictDive(j, a + b, default) == DictDive(Lookup(j, a).value, b, default)
  {
    DictDiveIsLookup(j, a + b, default);
    DictDiveIsLookup(Lookup(j, a).value, b, default);
    LookupAppend(j, a, b);
  }

  /** The reply to `LIST TOPICS;`, as `get_topics` reads it with the key list `['topics']`. */
  function TopicsReply(topics: seq<Json>): Json {
    JDict(map["@type" := JStr("kafka_topics"), "topics" := JList(topics)])
  }

  /**
   * `get_topics` as written raises on every reply, whereas with the key list checked to be a
   * list it returns the reply's topics, and `[]` when the reply has none.
   */
  lemma GetTopicsAsWritten(topics: seq<Json>)
    ensures DictDiveAsWritten(TopicsReply(topics), ["topics"], JList([])).Failure?
    ensures DictDive(TopicsReply(topics), ["topics"], JList([])) == Success(JList(topics))
    ensures DictDive(JDict(map[]), ["topics"], JList([])) == Success(JList([]))
  {
    assert "topics" in TopicsReply(topics).entries;
  }

  // ---------------------------------------------------------------------------------------------
  // Command status
  // ---------------------------------------------------------------------------------------------

  /** The reply of the kSQL server to a statement it executed: its `commandStatus` carries a `status`. */
  function CommandReply(status: string): Json {
    JDict(map["@type" := JStr("currentStatus"),
              "commandStatus" := JDict(map["status" := JStr(status), "message" := JStr("")])])
  }

  /** The key `create_configuration` and `delete_configuration` read the status under, as written: it ends in a space. */
  const StatusKeyAsWritten := "status "

  /** The key the server puts the status under. */
  const StatusKeyOfServer := "status"

  /** `dict_dive(result, ['commandStatus', key], fallback)`: the status of a reply, or the fallback. */
  function ReadStatus(reply: Json, key: string, fallback: Json): (r: Result<Json, DiveError>)
    ensures reply.JDict? ==> r == Success(OrDefault(Lookup(reply, ["commandStatus", key]), fallback))
  {
    if reply.JDict? then
      DictDiveIsLookup(reply, ["commandStatus", key], fallback);
      DictDive(reply, ["commandStatus", key], fallback)
    else
      DictDive(reply, ["commandStatus", key], fallback)
  }

  /**
   * Whatever status the server reports, the key with the trailing space finds nothing, so the
   * status read as written is the fallback: `'ERROR'` after a create, `'INVALID'` after a drop,
   * never `'SUCCESS'`. Read with the server's key, the reported status comes back.
   */
  lemma StatusKey(status: string, fallback: Json)
    ensures ReadStatus(CommandReply(status), StatusKeyAsWritten, fallback) == Success(fallback)
    ensures ReadStatus(CommandReply(status), StatusKeyOfServer, fallback) == Success(JStr(status))
  {
    var inner := CommandReply(status).entries["commandStatus"];
    assert StatusKeyAsWritten !in inner.entries;
    assert Lookup(inner, [StatusKeyAsWritten]) == None;
    assert Lookup(inner, [StatusKeyOfServer]) == Some(JStr(status)) by {
      assert Lookup(JStr(status), []) == Some(JStr(status));
    }
  }
}
