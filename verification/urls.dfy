/**
 The two URL builders (J_IPX800.js:54-64). Both append a query string to the
 host-provided request prefix by plain concatenation; nothing is escaped.

 The partner of the builders is `ParseQuery`, which splits a query string
 back into its `key=value` parameters: cut at every `&`, then cut each piece
 at its first `=`. It decodes nothing (no percent-decoding, no `+` for space)
 and drops no `#` fragment, so it reads the query's text as written. The
 round-trip lemmas show that the builders' parameters come back unchanged
 exactly when the caller's values contain no `&`; `AmpersandInjects` shows
 what happens otherwise.
 */
module Urls {
  import opened Text

  /** One `key=value` parameter of a query string. */
  datatype Param = Param(key: string, value: string)

  function ParamText(p: Param): string {
    p.key + "=" + p.value
  }

  /** The parameters joined with `&`, in order. */
  function QueryText(ps: seq<Param>): string
    requires |ps| >= 1
  {
    if |ps| == 1 then ParamText(ps[0])
    else QueryText(ps[..|ps|-1]) + "&" + ParamText(ps[|ps|-1])
  }

  lemma QueryTextSnoc(ps: seq<Param>, p: Param)
    requires |ps| >= 1
    ensures QueryText(ps + [p]) == QueryText(ps) + "&" + ParamText(p)
  {
    assert (ps + [p])[..|ps|] == ps;
  }

  /** The query is the `&`-join of the parameters' texts. */
  lemma {:induction false} QueryTextIsJoin(ps: seq<Param>)
    requires |ps| >= 1
    ensures QueryText(ps) == Join('&', ParamTexts(ps))
    decreases |ps|
  {
    var ts := ParamTexts(ps);
    if |ps| == 1 {
      assert ts[1..] == [];
    } else {
      var init := ps[..|ps|-1];
      QueryTextIsJoin(init);
      assert ParamTexts(init) == ts[..|ts|-1];
      JoinSnoc('&', ts[..|ts|-1], ts[|ts|-1]);
      assert ts[..|ts|-1] + [ts[|ts|-1]] == ts;
    }
  }

  function ParamTexts(ps: seq<Param>): (ts: seq<string>)
    ensures |ts| == |ps| && forall i :: 0 <= i < |ps| ==> ts[i] == ParamText(ps[i])
  {
    seq(|ps|, i requires 0 <= i < |ps| => ParamText(ps[i]))
  }

  /** Index of the first `c` in `s`, or `|s|` when there is none. */
  function FirstIndex(s: string, c: char): (i: nat)
    ensures i <= |s|
    ensures i < |s| ==> s[i] == c
    ensures forall j :: 0 <= j < i ==> s[j] != c
  {
    if s == [] then 0
    else if s[0] == c then 0
    else 1 + FirstIndex(s[1..], c)
  }

  /** A piece of a query: the key runs up to the first `=`, the value is the rest. */
  function ParseParam(t: string): Param {
    var i := FirstIndex(t, '=');
    if i < |t| then Param(t[..i], t[i+1..]) else Param(t, "")
  }

  /** Splits a query string into its parameters, without decoding anything. */
  function ParseQuery(q: string): (ps: seq<Param>)
    ensures |ps| == |Split(q, '&')|
  {
    var parts := Split(q, '&');
    seq(|parts|, i requires 0 <= i < |parts| => ParseParam(parts[i]))
  }

  /** A parameter that survives being written out and read back. */
  predicate Readable(p: Param) {
    '&' !in p.key && '=' !in p.key && '&' !in p.value
  }

  lemma ParseParamText(p: Param)
    requires '=' !in p.key
    ensures ParseParam(ParamText(p)) == p
  {
    var t := ParamText(p);
    var i := FirstIndex(t, '=');
    assert t[|p.key|] == '=';
    assert forall j :: 0 <= j < |p.key| ==> t[j] == p.key[j];
    assert i == |p.key|;
    assert t[..i] == p.key;
    assert t[i+1..] == p.value;
  }

  lemma ParamTextFree(p: Param)
    requires Readable(p)
    ensures '&' !in ParamText(p)
  {
    var t := ParamText(p);
    forall j | 0 <= j < |t| ensures t[j] != '&' {
      if j < |p.key| {
        assert t[j] == p.key[j];
      } else if j > |p.key| {
        assert t[j] == p.value[j - |p.key| - 1];
      }
    }
  }

  /** Parameters free of `&` (and keys free of `=`) are read back exactly. */
  lemma ParseQueryText(ps: seq<Param>)
    requires |ps| >= 1
    requires AllReadable(ps)
    ensures ParseQuery(QueryText(ps)) == ps
  {
    var ts := ParamTexts(ps);
    forall i | 0 <= i < |ts| ensures '&' !in ts[i] {
      ParamTextFree(ps[i]);
    }
    QueryTextIsJoin(ps);
    SplitJoin('&', ts);
    forall i | 0 <= i < |ps| ensures ParseParam(ts[i]) == ps[i] {
      ParseParamText(ps[i]);
    }
  }

  /** How many `&` the parameters' own texts hold, all told. */
  function AmpersandsIn(ps: seq<Param>): nat {
    if ps == [] then 0 else AmpersandsIn(ps[..|ps|-1]) + multiset(ParamText(ps[|ps|-1]))['&']
  }

  /** A query holds one `&` between each two parameters, plus those inside the parameters. */
  lemma {:induction false} QueryAmpersands(ps: seq<Param>)
    requires |ps| >= 1
    ensures multiset(QueryText(ps))['&'] == |ps| - 1 + AmpersandsIn(ps)
    decreases |ps|
  {
    if |ps| == 1 {
      assert ps[..0] == [];
    } else {
      QueryAmpersands(ps[..|ps|-1]);
      QueryAmpersandsStep(ps);
    }
  }

  lemma QueryAmpersandsStep(ps: seq<Param>)
    requires |ps| >= 2
    requires multiset(QueryText(ps[..|ps|-1]))['&'] == |ps| - 2 + AmpersandsIn(ps[..|ps|-1])
    ensures multiset(QueryText(ps))['&'] == |ps| - 1 + AmpersandsIn(ps)
  {
    var init := ps[..|ps|-1];
    var last := ps[|ps|-1];
    assert QueryText(ps) == QueryText(init) + "&" + ParamText(last);
    AmpersandJoin(QueryText(init), ParamText(last), QueryText(ps));
  }

  /** With no `&` counted, no parameter text holds one. */
  lemma {:induction false} NoAmpersandsIn(ps: seq<Param>)
    requires AmpersandsIn(ps) == 0
    ensures forall i :: 0 <= i < |ps| ==> '&' !in ParamText(ps[i])
    decreases |ps|
  {
    if ps != [] {
      var init := ps[..|ps|-1];
      NoAmpersandsIn(init);
      AmpersandCount(ParamText(ps[|ps|-1]));
      forall i | 0 <= i < |ps| ensures '&' !in ParamText(ps[i]) {
        if i < |ps| - 1 {
          assert init[i] == ps[i];
        }
      }
    }
  }

  lemma AmpersandCount(t: string)
    ensures '&' in t ==> multiset(t)['&'] >= 1
  {
  }

  lemma AmpersandJoin(q: string, t: string, x: string)
    requires x == q + "&" + t
    ensures multiset(x)['&'] == multiset(q)['&'] + 1 + multiset(t)['&']
  {
    assert multiset(x) == multiset(q) + multiset("&") + multiset(t);
  }

  /** A query reads back as its own parameters only if none of them contains `&`. */
  lemma ReadBackIsFree(ps: seq<Param>)
    requires |ps| >= 1 && ParseQuery(QueryText(ps)) == ps
    ensures forall i :: 0 <= i < |ps| ==> '&' !in ParamText(ps[i])
  {
    SplitCount(QueryText(ps), '&');
    QueryAmpersands(ps);
    NoAmpersandsIn(ps);
  }

  /** A key holding `=` is cut short when read back. */
  lemma ParseParamKeyCut(p: Param)
    requires '=' in p.key
    ensures ParseParam(ParamText(p)).key != p.key
  {
    var t := ParamText(p);
    var j :| 0 <= j < |p.key| && p.key[j] == '=';
    assert t[j] == '=';
    var i := FirstIndex(t, '=');
    assert i <= j;
    assert |ParseParam(t).key| == i;
  }

  /** Parameters read back as themselves exactly when they are all readable. */
  lemma ParseQueryExactly(ps: seq<Param>)
    requires |ps| >= 1
    ensures ParseQuery(QueryText(ps)) == ps <==> AllReadable(ps)
  {
    if AllReadable(ps) {
      ParseQueryText(ps);
    }
    if ParseQuery(QueryText(ps)) == ps {
      ReadBackIsFree(ps);
      var ts := ParamTexts(ps);
      QueryTextIsJoin(ps);
      SplitJoin('&', ts);
      forall i | 0 <= i < |ps| ensures Readable(ps[i]) {
        assert ParseQuery(QueryText(ps))[i] == ParseParam(ts[i]);
        if '=' in ps[i].key {
          ParseParamKeyCut(ps[i]);
        }
      }
    }
  }

  /** The parameters `buildVariableSetUrl` writes, in order. */
  function VariableSetParams(device: nat, service: string, name: string, value: string): seq<Param> {
    [Param("id", "variableset")] + [Param("DeviceNum", DecimalString(device))]
      + [Param("serviceId", service)] + [Param("Variable", name)] + [Param("Value", value)]
  }

  /** The parameters `buildUPnPActionUrl` writes, in order. */
  function ActionParams(device: nat, service: string, action: string): seq<Param> {
    [Param("id", "action")] + [Param("output_format", "json")] + [Param("DeviceNum", DecimalString(device))]
      + [Param("serviceId", service)] + [Param("action", action)]
  }

  /**
   `buildVariableSetUrl` (J_IPX800.js:54-58): the request prefix `base`,
   then the query that sets one device variable. The literal text is the
   source's, written here in one piece per parameter.
   */
  function VariableSetUrl(base: string, device: nat, service: string, name: string, value: string): (url: string)
    ensures |url| >= |base| + 7 + |value|
    ensures url[..|base|] == base
    ensures url[|url| - |value| - 7..] == "&Value=" + value
  {
    base + "id=variableset" + "&DeviceNum=" + DecimalString(device) + "&serviceId=" + service
      + "&Variable=" + name + "&Value=" + value
  }

  /**
   `buildUPnPActionUrl` (J_IPX800.js:60-64): the request prefix `base`, then
   the query that runs one action with JSON output.
   */
  function ActionUrl(base: string, device: nat, service: string, action: string): (url: string)
    ensures |url| >= |base| + 8 + |action|
    ensures url[..|base|] == base
    ensures url[|url| - |action| - 8..] == "&action=" + action
  {
    base + "id=action" + "&output_format=json" + "&DeviceNum=" + DecimalString(device) + "&serviceId=" + service
      + "&action=" + action
  }

  /** One more `&key=value` written after a query that is already in place. */
  lemma Extend(base: string, ps: seq<Param>, x: string, lit: string, key: string, v: string)
    requires |ps| >= 1 && x == base + QueryText(ps) && lit == "&" + key + "="
    ensures x + lit + v == base + QueryText(ps + [Param(key, v)])
  {
    QueryTextSnoc(ps, Param(key, v));
    Regroup(base, QueryText(ps), x, lit, key, v);
  }

  lemma Regroup(base: string, q: string, x: string, lit: string, key: string, v: string)
    requires x == base + q && lit == "&" + key + "="
    ensures x + lit + v == base + (q + "&" + ParamText(Param(key, v)))
  {
  }

  lemma VariableSetLiterals()
    ensures "id=variableset" == ParamText(Param("id", "variableset"))
    ensures "&DeviceNum=" == "&" + "DeviceNum" + "="
    ensures "&serviceId=" == "&" + "serviceId" + "="
    ensures "&Variable=" == "&" + "Variable" + "="
    ensures "&Value=" == "&" + "Value" + "="
  {
  }

  lemma ActionLiterals()
    ensures "id=action" == ParamText(Param("id", "action"))
    ensures "&output_format=json" == "&" + ParamText(Param("output_format", "json"))
    ensures "&DeviceNum=" == "&" + "DeviceNum" + "="
    ensures "&serviceId=" == "&" + "serviceId" + "="
    ensures "&action=" == "&" + "action" + "="
  {
  }

  /** The variable-set URL is the prefix followed by the query of its parameters. */
  lemma VariableSetUrlIsQuery(base: string, device: nat, service: string, name: string, value: string)
    ensures VariableSetUrl(base, device, service, name, value)
         == base + QueryText(VariableSetParams(device, service, name, value))
  {
    VariableSetLiterals();
    var d := DecimalString(device);
    var ps0 := [Param("id", "variableset")];
    var ps1 := ps0 + [Param("DeviceNum", d)];
    var ps2 := ps1 + [Param("serviceId", service)];
    var ps3 := ps2 + [Param("Variable", name)];
    var x0 := base + "id=variableset";
    var x1 := x0 + "&DeviceNum=" + d;
    var x2 := x1 + "&serviceId=" + service;
    var x3 := x2 + "&Variable=" + name;
    Extend(base, ps0, x0, "&DeviceNum=", "DeviceNum", d);
    Extend(base, ps1, x1, "&serviceId=", "serviceId", service);
    Extend(base, ps2, x2, "&Variable=", "Variable", name);
    Extend(base, ps3, x3, "&Value=", "Value", value);
  }

  /** The action URL is the prefix followed by the query of its parameters. */
  lemma ActionUrlIsQuery(base: string, device: nat, service: string, action: string)
    ensures ActionUrl(base, device, service, action) == base + QueryText(ActionParams(device, service, action))
  {
    ActionLiterals();
    var d := DecimalString(device);
    var ps0 := [Param("id", "action")];
    var ps1 := ps0 + [Param("output_format", "json")];
    var ps2 := ps1 + [Param("DeviceNum", d)];
    var ps3 := ps2 + [Param("serviceId", service)];
    var x0 := base + "id=action";
    var x1 := x0 + "&output_format=json";
    var x2 := x1 + "&DeviceNum=" + d;
    var x3 := x2 + "&serviceId=" + service;
    QueryTextSnoc(ps0, Param("output_format", "json"));
    assert x1 == base + QueryText(ps1);
    Extend(base, ps1, x1, "&DeviceNum=", "DeviceNum", d);
    Extend(base, ps2, x2, "&serviceId=", "serviceId", service);
    Extend(base, ps3, x3, "&action=", "action", action);
  }

  predicate AllReadable(ps: seq<Param>) {
    forall i :: 0 <= i < |ps| ==> Readable(ps[i])
  }

  lemma ReadableSnoc(ps: seq<Param>, p: Param)
    requires AllReadable(ps) && Readable(p)
    ensures AllReadable(ps + [p])
  {
    assert forall i :: 0 <= i < |ps| ==> (ps + [p])[i] == ps[i];
  }

  lemma VariableSetKeys()
    ensures AllReadable([Param("id", "variableset")])
    ensures '&' !in "DeviceNum" && '=' !in "DeviceNum"
    ensures '&' !in "serviceId" && '=' !in "serviceId"
    ensures '&' !in "Variable" && '=' !in "Variable"
    ensures '&' !in "Value" && '=' !in "Value"
  {
    assert Readable(Param("id", "variableset"));
  }

  lemma ActionKeys()
    ensures AllReadable([Param("id", "action")])
    ensures Readable(Param("output_format", "json"))
    ensures '&' !in "DeviceNum" && '=' !in "DeviceNum"
    ensures '&' !in "serviceId" && '=' !in "serviceId"
    ensures '&' !in "action" && '=' !in "action"
  {
    assert Readable(Param("id", "action"));
  }

  lemma VariableSetReadable(device: nat, service: string, name: string, value: string)
    requires '&' !in service && '&' !in name && '&' !in value
    ensures AllReadable(VariableSetParams(device, service, name, value))
  {
    DecimalHasNoAmpersand(device);
    VariableSetKeys();
    var ps0 := [Param("id", "variableset")];
    var ps1 := ps0 + [Param("DeviceNum", DecimalString(device))];
    var ps2 := ps1 + [Param("serviceId", service)];
    var ps3 := ps2 + [Param("Variable", name)];
    ReadableSnoc(ps0, Param("DeviceNum", DecimalString(device)));
    ReadableSnoc(ps1, Param("serviceId", service));
    ReadableSnoc(ps2, Param("Variable", name));
    ReadableSnoc(ps3, Param("Value", value));
  }

  lemma ActionReadable(device: nat, service: string, action: string)
    requires '&' !in service && '&' !in action
    ensures AllReadable(ActionParams(device, service, action))
  {
    DecimalHasNoAmpersand(device);
    ActionKeys();
    var ps0 := [Param("id", "action")];
    var ps1 := ps0 + [Param("output_format", "json")];
    var ps2 := ps1 + [Param("DeviceNum", DecimalString(device))];
    var ps3 := ps2 + [Param("serviceId", service)];
    ReadableSnoc(ps0, Param("output_format", "json"));
    ReadableSnoc(ps1, Param("DeviceNum", DecimalString(device)));
    ReadableSnoc(ps2, Param("serviceId", service));
    ReadableSnoc(ps3, Param("action", action));
  }

  lemma DecimalHasNoAmpersand(device: nat)
    ensures '&' !in DecimalString(device)
  {
    var d := DecimalString(device);
    assert forall j :: 0 <= j < |d| ==> IsDigit(d[j]);
  }

  /** Where the caller's fields sit among the variable-set parameters. */
  lemma VariableSetFields(device: nat, service: string, name: string, value: string)
    ensures var ps := VariableSetParams(device, service, name, value);
            |ps| == 5 && ps[2] == Param("serviceId", service) && ps[3] == Param("Variable", name)
            && ps[4] == Param("Value", value)
  {
  }

  /** Where the caller's fields sit among the action parameters. */
  lemma ActionFields(device: nat, service: string, action: string)
    ensures var ps := ActionParams(device, service, action);
            |ps| == 5 && ps[3] == Param("serviceId", service) && ps[4] == Param("action", action)
  {
  }

  /**
   Splitting the variable-set query gives back exactly the device, service,
   variable name and value if and only if none of them contains `&`.
   */
  lemma VariableSetRoundTrip(base: string, device: nat, service: string, name: string, value: string)
    ensures var url := VariableSetUrl(base, device, service, name, value);
            ParseQuery(url[|base|..]) == VariableSetParams(device, service, name, value)
            <==> ('&' !in service && '&' !in name && '&' !in value)
  {
    VariableSetUrlIsQuery(base, device, service, name, value);
    var ps := VariableSetParams(device, service, name, value);
    var url := VariableSetUrl(base, device, service, name, value);
    assert url[|base|..] == QueryText(ps);
    ParseQueryExactly(ps);
    if '&' !in service && '&' !in name && '&' !in value {
      VariableSetReadable(device, service, name, value);
    }
    if AllReadable(ps) {
      VariableSetFields(device, service, name, value);
      assert Readable(ps[2]) && Readable(ps[3]) && Readable(ps[4]);
    }
  }

  /** The same for the action query: exact read-back if and only if no field contains `&`. */
  lemma ActionRoundTrip(base: string, device: nat, service: string, action: string)
    ensures var url := ActionUrl(base, device, service, action);
            ParseQuery(url[|base|..]) == ActionParams(device, service, action)
            <==> ('&' !in service && '&' !in action)
  {
    ActionUrlIsQuery(base, device, service, action);
    var ps := ActionParams(device, service, action);
    var url := ActionUrl(base, device, service, action);
    assert url[|base|..] == QueryText(ps);
    ParseQueryExactly(ps);
    if '&' !in service && '&' !in action {
      ActionReadable(device, service, action);
    }
    if AllReadable(ps) {
      ActionFields(device, service, action);
      assert Readable(ps[3]) && Readable(ps[4]);
    }
  }

  /**
   Nothing is escaped: a value containing `&` ends the `Value` parameter
   early and smuggles in a parameter of its own.
   */
  lemma AmpersandInjects(base: string, device: nat, service: string, name: string)
    requires '&' !in service && '&' !in name
    ensures var url := VariableSetUrl(base, device, service, name, "1&x=2");
            ParseQuery(url[|base|..]) == VariableSetParams(device, service, name, "1") + [Param("x", "2")]
  {
    var ps := VariableSetParams(device, service, name, "1");
    var split := ps + [Param("x", "2")];
    InjectedQuery(base, device, service, name);
    VariableSetReadable(device, service, name, "1");
    ReadableSnoc(ps, Param("x", "2"));
    ParseQueryText(split);
  }

  lemma InjectedQuery(base: string, device: nat, service: string, name: string)
    ensures var url := VariableSetUrl(base, device, service, name, "1&x=2");
            url[|base|..] == QueryText(VariableSetParams(device, service, name, "1") + [Param("x", "2")])
  {
    var ps := VariableSetParams(device, service, name, "1");
    var u1 := VariableSetUrl(base, device, service, name, "1");
    var url := VariableSetUrl(base, device, service, name, "1&x=2");
    assert "1&x=2" == "1" + ("&" + "x" + "=") + "2";
    assert url == u1 + ("&" + "x" + "=") + "2";
    VariableSetUrlIsQuery(base, device, service, name, "1");
    Extend(base, ps, u1, "&" + "x" + "=", "x", "2");
  }
}
