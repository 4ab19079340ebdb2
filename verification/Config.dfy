/** Desired-state values and the checks every write path runs on them (config/config.go). */
module Config {
  import opened Basics

  /** Everything one certificate assignment says, apart from its name. */
  datatype Policy = Policy(domains: seq<string>, provider: string, overrides: map<string, string>, renewBefore: int)

  datatype CertConfig = CertConfig(name: string, policy: Policy)

  /** One DNS credential set; only its identity matters to the hub's own logic. */
  datatype ProviderConfig = ProviderConfig(kind: string, settings: map<string, string>)

  datatype SpokeEntry = SpokeEntry(tokens: seq<string>, certs: seq<CertConfig>)

  predicate IsSpace(c: char)
  {
    '\t' <= c <= '\r' || c == ' ' || c == '\U{85}' || c == '\U{A0}' || c == '\U{1680}' || '\U{2000}' <= c <= '\U{200A}'
    || c == '\U{2028}' || c == '\U{2029}' || c == '\U{202F}' || c == '\U{205F}' || c == '\U{3000}'
  }

  predicate IsControl(c: char)
  {
    c < ' ' || '\U{7F}' <= c <= '\U{9F}'
  }

  predicate ValidDomain(d: string)
  {
    && d != ""
    && (forall i :: 0 <= i < |d| ==> !IsSpace(d[i]) && !IsControl(d[i]))
    && d != "*."
  }

  predicate ValidCertName(name: string)
  {
    name != "" && name != "." && name != ".." && '/' !in name && '\\' !in name
  }

  /** `ValidateDomain`: the character loop, then the wildcard check. */
  method ValidateDomain(d: string) returns (ok: bool)
    ensures ok == ValidDomain(d)
  {
    if d == "" { return false; }
    for i := 0 to |d|
      invariant forall j :: 0 <= j < i ==> !IsSpace(d[j]) && !IsControl(d[j])
    {
      if IsSpace(d[i]) || IsControl(d[i]) { return false; }
    }
    var host := if "*." <= d then d[2..] else d;
    assert "*." <= d && host == "" ==> d == "*.";
    return host != "";
  }

  /** `ValidateCertName`. */
  method ValidateCertName(name: string) returns (ok: bool)
    ensures ok == ValidCertName(name)
  {
    if name == "" { return false; }
    return !(name == "." || name == ".." || '/' in name || '\\' in name);
  }

  // ----- What the checks let through -----

  /** A character no domain holds, by code point: white space and control characters of Unicode. */
  predicate Forbidden(c: char)
  {
    c <= ' ' || '\U{7F}' <= c <= '\U{A0}' || '\U{2000}' <= c <= '\U{200A}'
    || c in {'\U{1680}', '\U{2028}', '\U{2029}', '\U{202F}', '\U{205F}', '\U{3000}'}
  }

  /** A domain, or the one below a wildcard, is any non-empty text without such characters. */
  lemma DomainsExactly(host: string)
    ensures ValidDomain("*." + host) <==> host != "" && forall c :: c in host ==> !Forbidden(c)
    ensures !("*." <= host) ==> (ValidDomain(host) <==> host != "" && forall c :: c in host ==> !Forbidden(c))
  {
    var wild := "*." + host;
    assert forall c :: IsSpace(c) || IsControl(c) <==> Forbidden(c);
    assert wild[0] == '*' && wild[1] == '.' && wild[2..] == host;
    assert forall i :: 0 <= i < |host| ==> wild[i + 2] == host[i];
  }

  predicate IsSeparator(c: char)
  {
    c == '/' || c == '\\'
  }

  /** The components of a path, on either platform. */
  function Split(path: string): (r: seq<string>)
    ensures r != []
  {
    if path == "" then [""]
    else
      var rest := Split(path[1..]);
      if IsSeparator(path[0]) then [""] + rest else [[path[0]] + rest[0]] + rest[1..]
  }

  /** Where a relative path leads from a directory: up for "..", nowhere for "." and empty components. */
  function Walk(from: seq<string>, components: seq<string>): seq<string>
    decreases |components|
  {
    if components == [] then from
    else if components[0] == "" || components[0] == "." then Walk(from, components[1..])
    else if components[0] == ".." then Walk(if from == [] then [] else from[..|from| - 1], components[1..])
    else Walk(from + [components[0]], components[1..])
  }

  lemma {:induction false} SplitHasNoSeparators(path: string)
    ensures forall k, c :: k in Split(path) && c in k ==> !IsSeparator(c)
    ensures (forall c :: c in path ==> !IsSeparator(c)) ==> Split(path) == [path]
  {
    if path != "" {
      SplitHasNoSeparators(path[1..]);
      assert path == [path[0]] + path[1..];
    }
  }

  /** Whatever a walk adds below the directory it began in is a component of the path. */
  lemma {:induction false} WalkAddsComponents(from: seq<string>, components: seq<string>)
    ensures var there := Walk(from, components);
      forall i :: 0 <= i < |there| ==> there[i] in components || (i < |from| && there[i] == from[i])
    decreases |components|
  {
    if components != [] {
      var first, rest := components[0], components[1..];
      assert forall k :: k in rest ==> k in components;
      if first == "" || first == "." {
        WalkAddsComponents(from, rest);
      } else if first == ".." {
        var up := if from == [] then [] else from[..|from| - 1];
        assert up <= from;
        WalkAddsComponents(up, rest);
      } else {
        assert first in components && (from + [first])[|from|] == first;
        WalkAddsComponents(from + [first], rest);
      }
    }
  }

  /**
   * A name is valid exactly if, taken as a path on either platform, it leads from every directory to the entry of that
   * name in it: it can neither leave the directory nor name something below.
   */
  lemma NameIsOneComponentExactly(name: string)
    ensures ValidCertName(name) <==> forall from :: Walk(from, Split(name)) == from + [name]
  {
    SplitHasNoSeparators(name);
    if ValidCertName(name) {
      assert Split(name) == [name];
      forall from ensures Walk(from, Split(name)) == from + [name] { assert Split(name)[1..] == []; }
    } else {
      LeadsElsewhere(name);
      assert Walk([], Split(name)) != [] + [name];
    }
  }

  lemma LeadsElsewhere(name: string)
    requires !ValidCertName(name)
    ensures Walk([], Split(name)) != [name]
  {
    SplitHasNoSeparators(name);
    if '/' !in name && '\\' !in name {
      assert Split(name) == [name] && [name][1..] == [];
    } else {
      NotAComponent(name, if '/' in name then '/' else '\\');
      WalkAddsComponents([], Split(name));
      assert |Walk([], Split(name))| == 1 ==> Walk([], Split(name))[0] in Split(name);
    }
  }

  lemma NotAComponent(name: string, c: char)
    requires c in name && IsSeparator(c)
    ensures name !in Split(name)
  {
    SplitHasNoSeparators(name);
    forall k | k in Split(name) ensures c !in k {}
  }

  /** The certificates a set of spokes is configured with. */
  function Configured(spokes: map<string, SpokeEntry>): set<Key>
  {
    set id, c | id in spokes && c in spokes[id].certs :: (id, c.name)
  }

  function KeysOf(id: string, certs: seq<CertConfig>): set<Key>
  {
    set c | c in certs :: (id, c.name)
  }

  lemma KeysOneMore(id: string, certs: seq<CertConfig>, i: nat)
    requires i < |certs| && CertNamesOk(certs)
    ensures KeysOf(id, certs[..i + 1]) == KeysOf(id, certs[..i]) + {(id, certs[i].name)}
    ensures (id, certs[i].name) !in KeysOf(id, certs[..i]) && ValidCertName(certs[i].name)
    ensures forall k :: k in KeysOf(id, certs[..i]) ==> ValidCertName(k.1)
  {
    assert certs[..i + 1] == certs[..i] + [certs[i]];
    assert certs[i] in certs && forall c :: c in certs[..i] ==> c in certs;
  }

  lemma ConfiguredOneMore(spokes: map<string, SpokeEntry>, rest: set<string>, id: string)
    requires id in spokes && id in rest
    ensures Configured(spokes - (rest - {id})) == Configured(spokes - rest) + KeysOf(id, spokes[id].certs)
    ensures forall k :: k in Configured(spokes - rest) ==> k.0 != id
  {
    forall k | k in Configured(spokes - rest) ensures k in Configured(spokes - (rest - {id})) {
      var c :| c in (spokes - rest)[k.0].certs && c.name == k.1;
      assert c in (spokes - (rest - {id}))[k.0].certs;
    }
    forall k | k in KeysOf(id, spokes[id].certs) ensures k in Configured(spokes - (rest - {id})) {
      var c :| c in spokes[id].certs && k == (id, c.name);
      assert c in (spokes - (rest - {id}))[id].certs;
    }
    forall k | k in Configured(spokes - (rest - {id})) && k.0 != id ensures k in Configured(spokes - rest) {
      var c :| c in (spokes - (rest - {id}))[k.0].certs && c.name == k.1;
      assert c in (spokes - rest)[k.0].certs;
    }
  }

  /** Names are single path components, and a spoke has no two certificates of one name (Concurrency.NamesStayValid). */
  ghost predicate NamesOk(spokes: map<string, SpokeEntry>)
  {
    forall id :: id in spokes ==> CertNamesOk(spokes[id].certs)
  }

  ghost predicate CertNamesOk(certs: seq<CertConfig>)
  {
    && (forall c :: c in certs ==> ValidCertName(c.name))
    && forall i, j :: 0 <= i < j < |certs| ==> certs[i].name != certs[j].name
  }

  /** The key "spoke/name" the watchdog and the status page join on. */
  function JoinKey(k: Key): string
  {
    k.0 + "/" + k.1
  }

  /** The separator is the last slash of the joined key. */
  lemma SlashIsLast(k: Key)
    requires ValidCertName(k.1)
    ensures JoinKey(k)[|k.0|] == '/'
    ensures forall i :: |k.0| < i < |JoinKey(k)| ==> JoinKey(k)[i] != '/'
  {
    forall i | |k.0| < i < |JoinKey(k)| ensures JoinKey(k)[i] != '/' {
      assert JoinKey(k)[i] == k.1[i - |k.0| - 1];
    }
  }

  /** Spoke ids are unrestricted, yet the joined key determines both parts: a valid name holds no slash. */
  lemma JoinKeyInjective(a: Key, b: Key)
    requires ValidCertName(a.1) && ValidCertName(b.1)
    requires JoinKey(a) == JoinKey(b)
    ensures a == b
  {
    SlashIsLast(a);
    SlashIsLast(b);
    assert |a.0| == |b.0|;
    assert a.0 == JoinKey(a)[..|a.0|] == JoinKey(b)[..|b.0|] == b.0;
    assert a.1 == JoinKey(a)[|a.0| + 1..] == JoinKey(b)[|b.0| + 1..] == b.1;
  }

  /** Without the slash check two different certificates would share a key. */
  lemma JoinKeyNeedsValidNames()
    ensures var a: Key, b: Key := ("x", "y/z"), ("x/y", "z"); a != b && JoinKey(a) == JoinKey(b)
  {
    assert JoinKey(("x", "y/z")) == "x/y/z" == JoinKey(("x/y", "z"));
  }
}
