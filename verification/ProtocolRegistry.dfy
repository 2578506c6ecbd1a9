/** Registration of message types with version ranges, and their resolution with fallback to the current minor
    version (acapy_agent/core/protocol_registry.py, after the "Semver Rules for Protocols" of Aries RFC 0003).
    Message types are taken in parsed form. */
module ProtocolRegistry {
  import opened Prelude

  datatype MessageType = MessageType(docUri: string, protocol: string, major: nat, minor: nat, name: string)

  type MessageClass = string

  /** The stem is all of a protocol identifier but its minor version. */
  datatype Stem = Stem(docUri: string, protocol: string, major: nat)

  datatype VersionRange = VersionRange(major: nat, lo: nat, hi: nat)

  /** A protocol definition: who it is for, and the versions from the minimum to the current one. */
  datatype Definition = Definition(ident: Stem, range: VersionRange)

  datatype Registry = Registry(definitions: map<Stem, Definition>, classes: map<MessageType, MessageClass>)

  type TypeSet = seq<(MessageType, MessageClass)>

  datatype Resolution = Found(cls: MessageClass) | Unknown | MinorNotSupported(minimum: nat)

  function StemOf(t: MessageType): Stem {
    Stem(t.docUri, t.protocol, t.major)
  }

  function AtMinor(t: MessageType, minor: nat): MessageType {
    t.(minor := minor)
  }

  // ---- Registration ----

  /** What one registration adds before it is merged into the registry. */
  datatype Added = Added(definitions: map<Stem, Definition>, classes: map<MessageType, MessageClass>)

  function DefinitionFor(r: Registry, added: Added, t: MessageType, range: Option<VersionRange>): Definition {
    if StemOf(t) in added.definitions then added.definitions[StemOf(t)]
    else if StemOf(t) in r.definitions then r.definitions[StemOf(t)]
    else Definition(StemOf(t), if range.Some? then range.value else VersionRange(t.major, t.minor, t.minor))
  }

  predicate IsNew(r: Registry, added: Added, t: MessageType) {
    StemOf(t) !in added.definitions && StemOf(t) !in r.definitions
  }

  /** Minor versions are expanded only for definitions whose current minor is at least 1. */
  predicate Expands(d: Definition) {
    d.range.hi >= 1 && d.range.hi >= d.range.lo
  }

  function Versions(t: MessageType, lo: nat, hi: nat): set<MessageType> {
    set m | lo <= m <= hi :: AtMinor(t, m)
  }

  function Assigned(types: set<MessageType>, cls: MessageClass): map<MessageType, MessageClass> {
    map t | t in types :: cls
  }

  function AddLiteral(r: Registry, added: Added, t: MessageType, cls: MessageClass, range: Option<VersionRange>): Added {
    var d := DefinitionFor(r, added, t, range);
    Added(if IsNew(r, added, t) then added.definitions[StemOf(t) := d] else added.definitions,
          added.classes[t := cls] +
          (if Expands(d) then Assigned(Versions(t, d.range.lo, d.range.hi), cls) else map[]))
  }

  function AddAll(r: Registry, types: TypeSet, range: Option<VersionRange>): Added {
    if types == [] then Added(map[], map[])
    else AddLiteral(r, AddAll(r, types[..|types| - 1], range), types[|types| - 1].0, types[|types| - 1].1, range)
  }

  function Register(r: Registry, types: TypeSet, range: Option<VersionRange>): Registry {
    var added := AddAll(r, types, range);
    Registry(r.definitions + added.definitions, r.classes + added.classes)
  }

  function Resolve(r: Registry, t: MessageType): Resolution {
    if t in r.classes then Found(r.classes[t])
    else if StemOf(t) !in r.definitions then Unknown
    else
      var d := r.definitions[StemOf(t)];
      if t.minor < d.range.lo then MinorNotSupported(d.range.lo)
      else
        var current := t.(major := d.range.major, minor := d.range.hi);
        if current in r.classes then Found(r.classes[current]) else Unknown
  }

  /** The advertised protocol versions, as stem and minor. */
  function Protocols(r: Registry): set<(Stem, nat)> {
    set s, m | s in r.definitions && r.definitions[s].range.lo <= m <= r.definitions[s].range.hi ::
      (Stem(r.definitions[s].ident.docUri, r.definitions[s].ident.protocol, r.definitions[s].range.major), m)
  }

  // ---- Invariants of registries ----

  ghost predicate WellFormed(r: Registry) {
    && (forall t :: t in r.classes ==> StemOf(t) in r.definitions)
    && (forall s :: s in r.definitions ==> r.definitions[s].ident == s)
  }

  /** Some literal of the set has this stem. */
  ghost predicate HasStem(types: TypeSet, s: Stem) {
    exists n :: 0 <= n < |types| && StemOf(types[n].0) == s
  }

  lemma HasStemInit(types: TypeSet, s: Stem)
    requires types != []
    ensures HasStem(types, s) <==> HasStem(types[..|types| - 1], s) || StemOf(types[|types| - 1].0) == s
  {
    var init := types[..|types| - 1];
    if HasStem(init, s) {
      var n :| 0 <= n < |init| && StemOf(init[n].0) == s;
      assert types[n] == init[n];
    }
    if HasStem(types, s) {
      var n :| 0 <= n < |types| && StemOf(types[n].0) == s;
      assert n < |init| ==> init[n] == types[n];
    }
  }

  /** What a registration adds belongs to stems of its literals. */
  ghost predicate AddedInv(r: Registry, types: TypeSet, added: Added) {
    && (forall t :: t in added.classes ==>
          (StemOf(t) in r.definitions || StemOf(t) in added.definitions) && HasStem(types, StemOf(t)))
    && (forall s :: s in added.definitions ==>
          s !in r.definitions && added.definitions[s].ident == s && HasStem(types, s))
  }

  lemma AddLiteralInv(r: Registry, types: TypeSet, types': TypeSet, added: Added, t: MessageType, cls: MessageClass, range: Option<VersionRange>)
    requires WellFormed(r) && AddedInv(r, types, added)
    requires forall s :: HasStem(types', s) <==> HasStem(types, s) || StemOf(t) == s
    ensures AddedInv(r, types', AddLiteral(r, added, t, cls, range))
  {
  }

  lemma {:induction false} AddedWellFormed(r: Registry, types: TypeSet, range: Option<VersionRange>)
    requires WellFormed(r)
    ensures AddedInv(r, types, AddAll(r, types, range))
  {
    if types != [] {
      var init, last := types[..|types| - 1], types[|types| - 1];
      AddedWellFormed(r, init, range);
      forall s ensures HasStem(types, s) <==> HasStem(init, s) || StemOf(last.0) == s {
        HasStemInit(types, s);
      }
      AddLiteralInv(r, init, types, AddAll(r, init, range), last.0, last.1, range);
    }
  }

  lemma RegisterWellFormed(r: Registry, types: TypeSet, range: Option<VersionRange>)
    requires WellFormed(r)
    ensures WellFormed(Register(r, types, range))
  {
    AddedWellFormed(r, types, range);
  }

  /** Registering other stems changes nothing about this one. */
  lemma OthersUnchanged(r: Registry, types: TypeSet, range: Option<VersionRange>, t: MessageType)
    requires WellFormed(r) && !HasStem(types, StemOf(t))
    requires StemOf(t) in r.definitions && r.definitions[StemOf(t)].range.major == t.major
    ensures var r' := Register(r, types, range);
      && Resolve(r', t) == Resolve(r, t)
      && r'.definitions[StemOf(t)] == r.definitions[StemOf(t)]
      && (t in r'.classes <==> t in r.classes)
  {
    AddedWellFormed(r, types, range);
  }

  // ---- What a registration of fresh stems gives ----

  ghost predicate FreshStems(r: Registry, types: TypeSet) {
    forall n :: 0 <= n < |types| ==> StemOf(types[n].0) !in r.definitions
  }

  /** Every literal lies in its definition's major version and range of minors. */
  ghost predicate WithinRange(r: Registry, types: TypeSet) {
    forall n :: 0 <= n < |types| ==>
      && StemOf(types[n].0) in r.definitions
      && var v := r.definitions[StemOf(types[n].0)].range;
      && v.major == types[n].0.major && v.lo <= types[n].0.minor <= v.hi
  }

  /** No two literals differ only in their minor version. */
  ghost predicate OneLiteralPerName(types: TypeSet) {
    forall i, j :: 0 <= i < j < |types| ==> AtMinor(types[i].0, 0) != AtMinor(types[j].0, 0)
  }

  /** Definitions keep to the major version they are registered under. */
  ghost predicate MajorsKept(r: Registry) {
    forall s :: s in r.definitions ==> r.definitions[s].range.major == s.major
  }

  /** The literal that put `t` into the table: `t` itself, or one that `t` is an expanded version of. */
  predicate Covers(lit: MessageType, d: Definition, t: MessageType) {
    t == lit || (Expands(d) && AtMinor(t, 0) == AtMinor(lit, 0) && d.range.lo <= t.minor <= d.range.hi)
  }

  lemma AddLiteralCovers(r: Registry, added: Added, lit: MessageType, cls: MessageClass, range: Option<VersionRange>, t: MessageType)
    ensures var d, added' := DefinitionFor(r, added, lit, range), AddLiteral(r, added, lit, cls, range);
      && (Covers(lit, d, t) ==> t in added'.classes && added'.classes[t] == cls)
      && (!Covers(lit, d, t) ==> (t in added'.classes <==> t in added.classes) && (t in added.classes ==> added'.classes[t] == added.classes[t]))
  {
    var d := DefinitionFor(r, added, lit, range);
    if Expands(d) {
      assert t in Versions(lit, d.range.lo, d.range.hi) <==>
             AtMinor(t, 0) == AtMinor(lit, 0) && d.range.lo <= t.minor <= d.range.hi by {
        assert AtMinor(AtMinor(lit, t.minor), 0) == AtMinor(lit, 0);
        assert AtMinor(AtMinor(t, 0), t.minor) == t && AtMinor(AtMinor(lit, 0), t.minor) == AtMinor(lit, t.minor);
      }
    }
  }

  lemma {:induction false} NoEntry(r: Registry, types: TypeSet, range: Option<VersionRange>, t: MessageType)
    requires forall n :: 0 <= n < |types| ==> AtMinor(types[n].0, 0) != AtMinor(t, 0)
    ensures t !in AddAll(r, types, range).classes
  {
    if types != [] {
      var init, last := types[..|types| - 1], types[|types| - 1];
      NoEntry(r, init, range, t);
      AddLiteralCovers(r, AddAll(r, init, range), last.0, last.1, range, t);
    }
  }

  /** The first literal of a fresh stem fixes its definition; a type is added exactly when the literal of its
      name covers it, with that literal's class. */
  lemma {:induction false} Entry(r: Registry, types: TypeSet, range: Option<VersionRange>, n: nat, t: MessageType)
    requires FreshStems(r, types) && OneLiteralPerName(types) && n < |types|
    requires AtMinor(t, 0) == AtMinor(types[n].0, 0)
    ensures var lit, added := types[n].0, AddAll(r, types, range);
      && StemOf(lit) in added.definitions
      && (t in added.classes <==> Covers(lit, added.definitions[StemOf(lit)], t))
      && (t in added.classes ==> added.classes[t] == types[n].1)
  {
    var init, last := types[..|types| - 1], types[|types| - 1];
    AddLiteralCovers(r, AddAll(r, init, range), last.0, last.1, range, t);
    if n == |types| - 1 {
      NoEntry(r, init, range, t);
    } else {
      assert init[n] == types[n];
      Entry(r, init, range, n, t);
      assert AtMinor(last.0, 0) != AtMinor(t, 0);
    }
  }

  /** The same entry, read from the merged registry. */
  lemma FreshEntry(r: Registry, types: TypeSet, range: Option<VersionRange>, n: nat, t: MessageType)
    requires WellFormed(r) && FreshStems(r, types) && OneLiteralPerName(types) && n < |types|
    requires AtMinor(t, 0) == AtMinor(types[n].0, 0)
    ensures var r' := Register(r, types, range);
      && StemOf(types[n].0) in r'.definitions
      && (t in r'.classes <==> Covers(types[n].0, r'.definitions[StemOf(types[n].0)], t))
      && (t in r'.classes ==> r'.classes[t] == types[n].1)
  {
    Entry(r, types, range, n, t);
    assert StemOf(t) == StemOf(AtMinor(t, 0)) == StemOf(AtMinor(types[n].0, 0)) == StemOf(types[n].0);
  }

  /** After registering literals of fresh stems, one per name and within their range: the name resolves to its
      class at every minor from the minimum up, supported or newer, and is refused below the minimum. */
  lemma FreshTypesResolve(r: Registry, types: TypeSet, range: Option<VersionRange>, n: nat, minor: nat)
    requires WellFormed(r) && FreshStems(r, types) && OneLiteralPerName(types) && n < |types|
    requires WithinRange(Register(r, types, range), types)
    ensures var r' := Register(r, types, range); var v := r'.definitions[StemOf(types[n].0)].range;
      Resolve(r', AtMinor(types[n].0, minor)) == if minor >= v.lo then Found(types[n].1) else MinorNotSupported(v.lo)
  {
    var r', lit := Register(r, types, range), types[n].0;
    var v := r'.definitions[StemOf(lit)].range;
    assert StemOf(AtMinor(lit, minor)) == StemOf(lit);
    FreshEntry(r, types, range, n, AtMinor(lit, minor));
    FreshEntry(r, types, range, n, AtMinor(lit, v.hi));
    assert AtMinor(lit, minor).(major := v.major, minor := v.hi) == AtMinor(lit, v.hi);
    assert lit == AtMinor(lit, lit.minor);
  }

  lemma RegisterKeepsMajors(r: Registry, types: TypeSet, range: Option<VersionRange>)
    requires WellFormed(r) && MajorsKept(r) && WithinRange(Register(r, types, range), types)
    ensures MajorsKept(Register(r, types, range))
  {
    AddedWellFormed(r, types, range);
    var r' := Register(r, types, range);
    forall s | s in r'.definitions && s in AddAll(r, types, range).definitions ensures r'.definitions[s].range.major == s.major {
      assert HasStem(types, s);
    }
  }

  lemma AdvertisedInRange(r: Registry, s: Stem, minor: nat)
    requires WellFormed(r) && MajorsKept(r)
    ensures (s, minor) in Protocols(r) <==>
            s in r.definitions && r.definitions[s].range.lo <= minor <= r.definitions[s].range.hi
  {
  }

  /** Every advertised version of a freshly registered protocol is in the table itself, without fallback. */
  lemma AdvertisedResolveDirectly(r: Registry, types: TypeSet, range: Option<VersionRange>, n: nat, minor: nat)
    requires WellFormed(r) && FreshStems(r, types) && OneLiteralPerName(types) && n < |types|
    requires WithinRange(Register(r, types, range), types)
    requires MajorsKept(r) && (StemOf(types[n].0), minor) in Protocols(Register(r, types, range))
    ensures AtMinor(types[n].0, minor) in Register(r, types, range).classes
    ensures Register(r, types, range).classes[AtMinor(types[n].0, minor)] == types[n].1
  {
    var r', lit := Register(r, types, range), types[n].0;
    FreshEntry(r, types, range, n, AtMinor(lit, minor));
    assert lit == AtMinor(lit, lit.minor);
    RegisterWellFormed(r, types, range);
    RegisterKeepsMajors(r, types, range);
    AdvertisedInRange(r', StemOf(lit), minor);
  }

  /** The first literal of a new stem defines it: with the range that is given, or as the one version that it is
      itself. */
  lemma {:induction false} FirstDefines(r: Registry, types: TypeSet, range: Option<VersionRange>, n: nat)
    requires n < |types| && StemOf(types[n].0) !in r.definitions
    requires forall k :: 0 <= k < n ==> StemOf(types[k].0) != StemOf(types[n].0)
    ensures var t := types[n].0;
      var stem := Stem(t.docUri, t.protocol, t.major);
      && stem in Register(r, types, range).definitions
      && Register(r, types, range).definitions[stem] ==
         Definition(stem, if range == None then VersionRange(t.major, t.minor, t.minor) else range.value)
  {
    FirstAdds(r, types, range, n);
  }

  lemma {:induction false} NotYetAdded(r: Registry, types: TypeSet, range: Option<VersionRange>, s: Stem)
    requires forall k :: 0 <= k < |types| ==> StemOf(types[k].0) != s
    ensures s !in AddAll(r, types, range).definitions
  {
    if types != [] {
      NotYetAdded(r, types[..|types| - 1], range, s);
    }
  }

  lemma {:induction false} FirstAdds(r: Registry, types: TypeSet, range: Option<VersionRange>, n: nat)
    requires n < |types| && StemOf(types[n].0) !in r.definitions
    requires forall k :: 0 <= k < n ==> StemOf(types[k].0) != StemOf(types[n].0)
    ensures var t, added := types[n].0, AddAll(r, types, range).definitions;
      && StemOf(t) in added
      && added[StemOf(t)] ==
         Definition(StemOf(t), if range == None then VersionRange(t.major, t.minor, t.minor) else range.value)
  {
    var init := types[..|types| - 1];
    if n == |types| - 1 {
      NotYetAdded(r, init, range, StemOf(types[n].0));
    } else {
      assert init[n] == types[n];
      FirstAdds(r, init, range, n);
    }
  }

  /** A type that is registered again is replaced: the last literal has its class, whatever was there. */
  lemma LastWins(r: Registry, types: TypeSet, range: Option<VersionRange>)
    requires types != []
    ensures var last := types[|types| - 1];
      last.0 in Register(r, types, range).classes && Register(r, types, range).classes[last.0] == last.1
  {
    var init, last := types[..|types| - 1], types[|types| - 1];
    AddLiteralCovers(r, AddAll(r, init, range), last.0, last.1, range, last.0);
  }

  /** One literal adds itself and, when the current minor of its definition is at least 1, every version of the
      definition's range under its name; the definition is the one it has, if it has one. */
  lemma OneLiteralAdds(r: Registry, t: MessageType, cls: MessageClass, range: Option<VersionRange>, u: MessageType)
    ensures var stem := Stem(t.docUri, t.protocol, t.major);
      var v := if stem in r.definitions then r.definitions[stem].range
               else if range == None then VersionRange(t.major, t.minor, t.minor) else range.value;
      var added := u == t ||
        (v.hi >= 1 && v.lo <= u.minor <= v.hi
         && u == MessageType(t.docUri, t.protocol, t.major, u.minor, t.name));
      && (u in Register(r, [(t, cls)], range).classes <==> added || u in r.classes)
      && (u in Register(r, [(t, cls)], range).classes ==>
            Register(r, [(t, cls)], range).classes[u] == if added then cls else r.classes[u])
  {
    var types := [(t, cls)];
    assert types[..0] == [];
    AddLiteralCovers(r, AddAll(r, [], range), t, cls, range, u);
    var d := DefinitionFor(r, AddAll(r, [], range), t, range);
    SameNameMeans(t, u);
  }

  lemma SameNameMeans(t: MessageType, u: MessageType)
    ensures AtMinor(u, 0) == AtMinor(t, 0) <==> u == MessageType(t.docUri, t.protocol, t.major, u.minor, t.name)
  {
  }

  /** What is already defined keeps its definition. */
  lemma DefinedStays(r: Registry, types: TypeSet, range: Option<VersionRange>, s: Stem)
    requires WellFormed(r) && s in r.definitions
    ensures s in Register(r, types, range).definitions && Register(r, types, range).definitions[s] == r.definitions[s]
  {
    AddedWellFormed(r, types, range);
  }

  // ---- Runs of registrations ----

  datatype Registration = Registration(types: TypeSet, range: Option<VersionRange>)

  function RegisterAll(r: Registry, regs: seq<Registration>): Registry
    decreases |regs|
  {
    if regs == [] then r else RegisterAll(Register(r, regs[0].types, regs[0].range), regs[1..])
  }

  ghost predicate AvoidStem(regs: seq<Registration>, s: Stem) {
    forall k :: 0 <= k < |regs| ==> !HasStem(regs[k].types, s)
  }

  /** Whatever is registered later under other stems, resolution of this stem stays as it is. */
  lemma {:induction false} LaterRegistrationsHarmless(r: Registry, regs: seq<Registration>, t: MessageType)
    requires WellFormed(r) && AvoidStem(regs, StemOf(t))
    requires StemOf(t) in r.definitions && r.definitions[StemOf(t)].range.major == t.major
    ensures Resolve(RegisterAll(r, regs), t) == Resolve(r, t)
    decreases |regs|
  {
    if regs != [] {
      var r' := Register(r, regs[0].types, regs[0].range);
      OthersUnchanged(r, regs[0].types, regs[0].range, t);
      RegisterWellFormed(r, regs[0].types, regs[0].range);
      LaterRegistrationsHarmless(r', regs[1..], t);
    }
  }

  /** The whole promise for a freshly registered name: it survives every later registration of other stems. */
  lemma FreshTypesKeepResolving(r: Registry, types: TypeSet, range: Option<VersionRange>, regs: seq<Registration>, n: nat, minor: nat)
    requires WellFormed(r) && FreshStems(r, types) && OneLiteralPerName(types) && n < |types|
    requires WithinRange(Register(r, types, range), types) && AvoidStem(regs, StemOf(types[n].0))
    ensures var v := Register(r, types, range).definitions[StemOf(types[n].0)].range;
      Resolve(RegisterAll(Register(r, types, range), regs), AtMinor(types[n].0, minor)) ==
      if minor >= v.lo then Found(types[n].1) else MinorNotSupported(v.lo)
  {
    FreshTypesResolve(r, types, range, n, minor);
    RegisterWellFormed(r, types, range);
    assert StemOf(AtMinor(types[n].0, minor)) == StemOf(types[n].0);
    LaterRegistrationsHarmless(Register(r, types, range), regs, AtMinor(types[n].0, minor));
  }

  /** The type at the current version of a name's definition, under the major version of the range. */
  function CurrentVersion(lit: MessageType, v: VersionRange): MessageType {
    lit.(major := v.major, minor := v.hi)
  }

  /** The name has an entry at the current version: its literal is that version, or it is expanded to it. */
  predicate CurrentCovered(lit: MessageType, v: VersionRange) {
    v.major == lit.major && (lit.minor == v.hi || v.hi >= 1)
  }

  /** Above the current version, a freshly registered name resolves to its class at its literal's own minor, and at
      all others if its range is of its own major version and covers the current minor. A range of another major
      version, which registration does not refuse, sends it to whatever class the other major version has there, or
      leaves it unknown; so does a literal newer than a current minor of 0. */
  lemma NewerMinors(r: Registry, types: TypeSet, range: Option<VersionRange>, n: nat, minor: nat)
    requires WellFormed(r) && FreshStems(r, types) && OneLiteralPerName(types) && n < |types|
    requires StemOf(types[n].0) in Register(r, types, range).definitions
    requires var v := Register(r, types, range).definitions[StemOf(types[n].0)].range;
      v.lo <= v.hi < minor
    ensures var r', (lit, cls) := Register(r, types, range), types[n];
      var v := r'.definitions[StemOf(lit)].range;
      var current, found := CurrentVersion(lit, v), Resolve(r', AtMinor(lit, minor));
      && found == (if minor == lit.minor || CurrentCovered(lit, v) then Found(cls)
                   else if v.major != lit.major && current in r'.classes then Found(r'.classes[current])
                   else Unknown)
      && (found == Found(cls) <==>
            || minor == lit.minor || CurrentCovered(lit, v)
            || (v.major != lit.major && current in r'.classes && r'.classes[current] == cls))
  {
    var r', lit := Register(r, types, range), types[n].0;
    var v := r'.definitions[StemOf(lit)].range;
    FreshEntry(r, types, range, n, AtMinor(lit, minor));
    FreshEntry(r, types, range, n, AtMinor(lit, v.hi));
    assert AtMinor(lit, minor).(major := v.major, minor := v.hi) == CurrentVersion(lit, v);
    assert v.major == lit.major ==> CurrentVersion(lit, v) == AtMinor(lit, v.hi);
    assert lit == AtMinor(lit, lit.minor);
  }

  lemma DefinitionOfFirst(t: MessageType, cls: MessageClass, rest: TypeSet, range: VersionRange)
    ensures var added := AddAll(Registry(map[], map[]), [(t, cls)] + rest, Some(range));
      StemOf(t) in added.definitions && added.definitions[StemOf(t)] == Definition(StemOf(t), range)
    decreases |rest|
  {
    var r, types := Registry(map[], map[]), [(t, cls)] + rest;
    if rest == [] {
      assert types[..|types| - 1] == [];
    } else {
      DefinitionOfFirst(t, cls, rest[..|rest| - 1], range);
      assert types[..|types| - 1] == [(t, cls)] + rest[..|rest| - 1];
    }
  }

  /** Registered alone with a range of another major version, a name is unknown at every newer minor. */
  lemma OtherMajorUnresolved(t: MessageType, cls: MessageClass, range: VersionRange, minor: nat)
    requires range.major != t.major && range.lo <= range.hi && t.minor <= range.hi < minor
    ensures Resolve(Register(Registry(map[], map[]), [(t, cls)], Some(range)), AtMinor(t, minor)) == Unknown
  {
    var r, types := Registry(map[], map[]), [(t, cls)];
    DefinitionOfFirst(t, cls, [], range);
    assert types + [] == types;
    NewerMinors(r, types, Some(range), 0, minor);
    AddedWellFormed(r, types, Some(range));
    assert !HasStem(types, StemOf(CurrentVersion(t, range)));
  }

  /** Registered together with that major version, it resolves to the class of the other one. */
  lemma OtherMajorForeignClass(t: MessageType, cls: MessageClass, other: MessageClass, range: VersionRange, minor: nat)
    requires range.major != t.major && range.lo <= range.hi && t.minor <= range.hi < minor
    ensures var types := [(t, cls), (CurrentVersion(t, range), other)];
      Resolve(Register(Registry(map[], map[]), types, Some(range)), AtMinor(t, minor)) == Found(other)
  {
    var r, u := Registry(map[], map[]), CurrentVersion(t, range);
    var types := [(t, cls), (u, other)];
    DefinitionOfFirst(t, cls, [(u, other)], range);
    assert [(t, cls)] + [(u, other)] == types;
    assert OneLiteralPerName(types) by {
      assert AtMinor(t, 0).major != AtMinor(u, 0).major;
    }
    NewerMinors(r, types, Some(range), 0, minor);
    FreshEntry(r, types, Some(range), 1, u);
  }

  // ---- The class ----

  class ProtocolRegistry {
    var definitions: map<Stem, Definition>
    var classes: map<MessageType, MessageClass>

    ghost function Contents(): Registry
      reads this
    {
      Registry(definitions, classes)
    }

    constructor ()
      ensures WellFormed(Contents()) && definitions == map[] && classes == map[]
    {
      definitions, classes := map[], map[];
    }

    /** Fails, registering nothing, when a new definition's minimum exceeds its current version. */
    method RegisterMessageTypes(types: TypeSet, range: Option<VersionRange>) returns (ok: bool)
      modifies this
      ensures ok <==> range.None? || range.value.lo <= range.value.hi || forall n :: 0 <= n < |types| ==> StemOf(types[n].0) in old(definitions)
      ensures Contents() == if ok then Register(old(Contents()), types, range) else old(Contents())
    {
      var newDefinitions: map<Stem, Definition> := map[];
      var newClasses: map<MessageType, MessageClass> := map[];
      for n := 0 to |types|
        invariant Contents() == old(Contents())
        invariant Added(newDefinitions, newClasses) == AddAll(Contents(), types[..n], range)
        invariant range.Some? && range.value.lo > range.value.hi ==>
          newDefinitions == map[] && forall k :: 0 <= k < n ==> StemOf(types[k].0) in definitions
      {
        var t, cls := types[n].0, types[n].1;
        assert types[..n + 1][..n] == types[..n];
        ghost var before := Added(newDefinitions, newClasses);
        var d: Definition;
        if StemOf(t) in newDefinitions {
          d := newDefinitions[StemOf(t)];
        } else if StemOf(t) in definitions {
          d := definitions[StemOf(t)];
        } else {
          if range.Some? {
            if range.value.lo > range.value.hi {
              return false;
            }
            d := Definition(StemOf(t), range.value);
          } else {
            d := Definition(StemOf(t), VersionRange(t.major, t.minor, t.minor));
          }
          newDefinitions := newDefinitions[StemOf(t) := d];
        }
        newClasses := AddVersions(newClasses, t, cls, d);
        assert Added(newDefinitions, newClasses) == AddLiteral(Contents(), before, t, cls, range);
      }
      assert types[..|types|] == types;
      classes := classes + newClasses;
      definitions := definitions + newDefinitions;
      ok := true;
    }

    /** The literal itself, then every supported minor version of it. */
    method AddVersions(classes: map<MessageType, MessageClass>, t: MessageType, cls: MessageClass, d: Definition)
      returns (r: map<MessageType, MessageClass>)
      ensures r == classes[t := cls] +
                   (if Expands(d) then Assigned(Versions(t, d.range.lo, d.range.hi), cls) else map[])
    {
      r := classes[t := cls];
      if d.range.hi >= 1 && d.range.hi >= d.range.lo {
        ghost var r0 := r;
        for m := d.range.lo to d.range.hi + 1
          invariant r == r0 + Assigned(VersionsBelow(t, d.range.lo, m), cls)
        {
          VersionsGrow(t, d.range.lo, m, r0, cls);
          r := r[AtMinor(t, m) := cls];
        }
        assert VersionsBelow(t, d.range.lo, d.range.hi + 1) == Versions(t, d.range.lo, d.range.hi);
      }
    }

    method ResolveMessageClass(t: MessageType) returns (r: Resolution)
      ensures r == Resolve(Contents(), t)
      ensures var stem := Stem(t.docUri, t.protocol, t.major);
        r == if t in classes then Found(classes[t])
             else if stem !in definitions then Unknown
             else
               var v := definitions[stem].range;
               var current := MessageType(t.docUri, t.protocol, v.major, v.hi, t.name);
               if t.minor < v.lo then MinorNotSupported(v.lo)
               else if current in classes then Found(classes[current]) else Unknown
    {
      if t in classes {
        return Found(classes[t]);
      }
      if StemOf(t) in definitions {
        var d := definitions[StemOf(t)];
        if t.minor < d.range.lo {
          return MinorNotSupported(d.range.lo);
        }
        var current := t.(major := d.range.major, minor := d.range.hi);
        if current in classes {
          return Found(classes[current]);
        }
      }
      r := Unknown;
    }
  }

  function VersionsBelow(t: MessageType, lo: nat, end: nat): set<MessageType> {
    set m | lo <= m < end :: AtMinor(t, m)
  }

  lemma VersionsGrow(t: MessageType, lo: nat, m: nat, r: map<MessageType, MessageClass>, cls: MessageClass)
    requires lo <= m
    ensures r + Assigned(VersionsBelow(t, lo, m + 1), cls) ==
            (r + Assigned(VersionsBelow(t, lo, m), cls))[AtMinor(t, m) := cls]
  {
    assert VersionsBelow(t, lo, m + 1) == VersionsBelow(t, lo, m) + {AtMinor(t, m)};
  }
}
