/** Presentation pre-verification, in the AnonCreds copy (acapy_agent/anoncreds/verifier.py) and the Indy copy
    (acapy_agent/indy/verifier.py). `canon` and `encode` are uninterpreted; sub-proof indices are natural numbers. */
module PreVerify {
  import opened Prelude

  type Uuid = string
  type Coder = string -> string

  datatype ReqPred = ReqPred(uuid: Uuid, name: string, pValue: int)

  /** `ByName` also stands for a request that has both keys; `restricted` for a non-empty restriction list. */
  datatype ReqAttr =
    | ByName(uuid: Uuid, name: string, restricted: bool)
    | ByNames(uuid: Uuid, names: seq<string>)
    | Nameless(uuid: Uuid)

  datatype Request = Request(predicates: Option<seq<ReqPred>>, attributes: Option<seq<ReqAttr>>)

  datatype GeProof = GeProof(attrName: string, value: int)

  /** The parts of a sub-proof that are looked at; either may be missing. */
  datatype SubProof = SubProof(geProofs: Option<seq<GeProof>>, revealed: Option<map<string, string>>)

  datatype Shown = Shown(index: nat, raw: string, encoded: string)

  datatype Group = Group(index: nat, values: map<string, (string, string)>)

  datatype Requested = Requested(
    predicates: map<Uuid, nat>, revealed: map<Uuid, Shown>, unrevealed: set<Uuid>,
    groups: map<Uuid, Group>, selfAttested: set<Uuid>)

  /** Nothing at all, or an object that may lack either part. */
  datatype Presentation = Empty | Presentation(requested: Option<Requested>, proofs: Option<seq<SubProof>>)

  /** The `ValueError`s of the source, then the exceptions that escape it. */
  datatype Failure =
    | IncompleteRequest | NothingProvided | NoRequestedProof | NoProof
    | PredicateNotFound(canonName: string) | PredicateValueDiffers(attrName: string) | MissingPredicate(uuid: Uuid)
    | RestrictedSelfAttested(name: string) | MissingAttribute(name: string) | NoNames(uuid: Uuid)
    | MissingRevealed(attr: string) | EncodingMismatch(attr: string)
    | KeyEscapes | TypeEscapes | IndexEscapes | UnboundEscapes

  /** Messages are the referents of attributes that were not revealed. */
  datatype Result = Accepted(msgs: seq<Uuid>) | Failed(why: Failure)

  datatype Copy = AnonCreds | Indy

  // ---- The declarative specification ----

  predicate Proves(ge: GeProof, canon: Coder, p: ReqPred) {
    ge.attrName == canon(p.name) && ge.value == p.pValue
  }

  /** Some ge-proof of the predicate's sub-proof matches its canonical name and its bound. */
  predicate PredicateOk(canon: Coder, p: ReqPred, rq: Requested, proofs: seq<SubProof>) {
    && p.uuid in rq.predicates && rq.predicates[p.uuid] < |proofs|
    && proofs[rq.predicates[p.uuid]].geProofs.Some?
    && exists g :: g in proofs[rq.predicates[p.uuid]].geProofs.value && Proves(g, canon, p)
  }

  /** The attribute is revealed under its canonical name, with the encoding shown, of the raw value shown. */
  predicate Consistent(canon: Coder, encode: Coder, attr: string, shown: Shown, proofs: seq<SubProof>) {
    && shown.index < |proofs|
    && proofs[shown.index].revealed.Some?
    && canon(attr) in proofs[shown.index].revealed.value
    && proofs[shown.index].revealed.value[canon(attr)] == shown.encoded == encode(shown.raw)
  }

  function ShownMember(g: Group, attr: string): Shown
    requires attr in g.values
  {
    Shown(g.index, g.values[attr].0, g.values[attr].1)
  }

  predicate AttributeOk(canon: Coder, encode: Coder, a: ReqAttr, rq: Requested, proofs: seq<SubProof>) {
    match a
    case ByName(uuid, name, restricted) =>
      if uuid in rq.revealed then Consistent(canon, encode, name, rq.revealed[uuid], proofs)
      else uuid in rq.unrevealed || (uuid in rq.selfAttested && !restricted)
    case ByNames(uuid, names) =>
      && uuid in rq.groups
      && forall attr :: attr in names ==>
           && attr in rq.groups[uuid].values
           && Consistent(canon, encode, attr, ShownMember(rq.groups[uuid], attr), proofs)
    case Nameless(_) => false
  }

  predicate Acceptable(canon: Coder, encode: Coder, req: Request, pres: Presentation) {
    && req.predicates.Some? && req.attributes.Some?
    && pres.Presentation? && pres.requested.Some? && pres.proofs.Some?
    && (forall p :: p in req.predicates.value ==> PredicateOk(canon, p, pres.requested.value, pres.proofs.value))
    && (forall a :: a in req.attributes.value ==> AttributeOk(canon, encode, a, pres.requested.value, pres.proofs.value))
  }

  predicate Withheld(a: ReqAttr, rq: Requested) {
    a.ByName? && a.uuid !in rq.revealed && a.uuid in rq.unrevealed
  }

  function Messages(attrs: seq<ReqAttr>, rq: Requested): seq<Uuid> {
    if attrs == [] then []
    else
      var last := attrs[|attrs| - 1];
      Messages(attrs[..|attrs| - 1], rq) + (if Withheld(last, rq) then [last.uuid] else [])
  }

  // ---- Which failure comes first ----

  function LastOf(ges: seq<GeProof>): GeProof
    requires ges != []
  {
    ges[|ges| - 1]
  }

  /** The failure of the n-th predicate when all before it are met. The Indy copy names the last ge-proof it
      looked at: with none to look at, that is the one that met the predicate before, or an unbound variable. */
  function PredicateFailure(copy: Copy, canon: Coder, preds: seq<ReqPred>, n: nat, rq: Requested, proofs: seq<SubProof>): Failure
    requires n < |preds|
  {
    var p := preds[n];
    if p.uuid !in rq.predicates then MissingPredicate(p.uuid)
    else if rq.predicates[p.uuid] >= |proofs| then IndexEscapes
    else if proofs[rq.predicates[p.uuid]].geProofs.None? then MissingPredicate(p.uuid)
    else if copy == AnonCreds then PredicateNotFound(canon(p.name))
    else
      var ges := proofs[rq.predicates[p.uuid]].geProofs.value;
      if ges != [] then PredicateValueDiffers(LastOf(ges).attrName)
      else if n > 0 then PredicateValueDiffers(canon(preds[n - 1].name))
      else UnboundEscapes
  }

  function ShownFailure(canon: Coder, encode: Coder, attr: string, shown: Shown, proofs: seq<SubProof>): Option<Failure> {
    if shown.index >= |proofs| then Some(IndexEscapes)
    else if proofs[shown.index].revealed.None? || canon(attr) !in proofs[shown.index].revealed.value then Some(MissingRevealed(attr))
    else
      var primary := proofs[shown.index].revealed.value[canon(attr)];
      if primary != shown.encoded || primary != encode(shown.raw) then Some(EncodingMismatch(attr)) else None
  }

  /** The members of a group that a request asks for, as attribute names with what is shown for them. */
  function GroupSpecs(names: seq<string>, g: Group): seq<(string, Shown)>
    requires forall attr :: attr in names ==> attr in g.values
  {
    seq(|names|, i requires 0 <= i < |names| => (names[i], ShownMember(g, names[i])))
  }

  function SpecsFailure(canon: Coder, encode: Coder, specs: seq<(string, Shown)>, proofs: seq<SubProof>): Option<Failure> {
    if specs == [] then None
    else
      var first := ShownFailure(canon, encode, specs[0].0, specs[0].1, proofs);
      if first.Some? then first else SpecsFailure(canon, encode, specs[1..], proofs)
  }

  function AttributeFailure(canon: Coder, encode: Coder, a: ReqAttr, rq: Requested, proofs: seq<SubProof>): Option<Failure> {
    match a
    case ByName(uuid, name, restricted) =>
      if uuid in rq.revealed then SpecsFailure(canon, encode, [(name, rq.revealed[uuid])], proofs)
      else if uuid in rq.unrevealed then None
      else if uuid in rq.selfAttested then (if restricted then Some(RestrictedSelfAttested(name)) else None)
      else Some(MissingAttribute(name))
    case ByNames(uuid, names) =>
      if uuid !in rq.groups then Some(KeyEscapes)
      else if exists attr :: attr in names && attr !in rq.groups[uuid].values then Some(TypeEscapes)
      else SpecsFailure(canon, encode, GroupSpecs(names, rq.groups[uuid]), proofs)
    case Nameless(uuid) => Some(NoNames(uuid))
  }

  lemma {:induction false} SpecsMeet(canon: Coder, encode: Coder, specs: seq<(string, Shown)>, proofs: seq<SubProof>)
    ensures SpecsFailure(canon, encode, specs, proofs).None? <==>
            forall i :: 0 <= i < |specs| ==> Consistent(canon, encode, specs[i].0, specs[i].1, proofs)
    ensures SpecsFailure(canon, encode, specs, proofs) != Some(UnboundEscapes)
  {
    if specs != [] {
      SpecsMeet(canon, encode, specs[1..], proofs);
    }
  }

  /** The first failure of an attribute's checks is none at all exactly when the attribute is acceptable. */
  lemma AttributeMeetsSpec(canon: Coder, encode: Coder, a: ReqAttr, rq: Requested, proofs: seq<SubProof>)
    ensures AttributeFailure(canon, encode, a, rq, proofs).None? <==> AttributeOk(canon, encode, a, rq, proofs)
    ensures AttributeFailure(canon, encode, a, rq, proofs) != Some(UnboundEscapes)
  {
    if a.ByName? && a.uuid in rq.revealed {
      SpecsMeet(canon, encode, [(a.name, rq.revealed[a.uuid])], proofs);
    }
    if a.ByNames? && a.uuid in rq.groups && forall attr :: attr in a.names ==> attr in rq.groups[a.uuid].values {
      var specs := GroupSpecs(a.names, rq.groups[a.uuid]);
      SpecsMeet(canon, encode, specs, proofs);
      forall attr | attr in a.names ensures exists i :: 0 <= i < |specs| && specs[i].0 == attr {
        var i :| 0 <= i < |a.names| && a.names[i] == attr;
        assert specs[i].0 == attr;
      }
    }
  }

  /** The n-th predicate is the first that is not met. */
  ghost predicate FirstUnmet(canon: Coder, preds: seq<ReqPred>, n: nat, rq: Requested, proofs: seq<SubProof>) {
    && n < |preds| && !PredicateOk(canon, preds[n], rq, proofs)
    && forall k :: 0 <= k < n ==> PredicateOk(canon, preds[k], rq, proofs)
  }

  /** What a copy returns or raises, for every request and presentation. */
  ghost predicate Meets(copy: Copy, canon: Coder, encode: Coder, req: Request, pres: Presentation, r: Result) {
    && (r.Accepted? <==> Acceptable(canon, encode, req, pres))
    && (r.Accepted? ==> r.msgs == Messages(req.attributes.value, pres.requested.value))
    && (r.Failed? ==>
          if req.predicates.None? || req.attributes.None? then r.why == IncompleteRequest
          else if pres.Empty? then r.why == NothingProvided
          else if pres.requested.None? then r.why == NoRequestedProof
          else if pres.proofs.None? then r.why == NoProof
          else
            var preds, attrs, rq, proofs := req.predicates.value, req.attributes.value, pres.requested.value, pres.proofs.value;
            || (exists n :: FirstUnmet(canon, preds, n, rq, proofs) && r.why == PredicateFailure(copy, canon, preds, n, rq, proofs))
            || ((forall p :: p in preds ==> PredicateOk(canon, p, rq, proofs)) &&
                exists n :: 0 <= n < |attrs|
                  && (forall k :: 0 <= k < n ==> AttributeFailure(canon, encode, attrs[k], rq, proofs).None?)
                  && AttributeFailure(canon, encode, attrs[n], rq, proofs) == Some(r.why)))
  }

  /** The two copies accept the same presentations with the same messages. When they reject, they differ only
      in how they report a predicate without a matching ge-proof. */
  lemma CopiesAgree(canon: Coder, encode: Coder, req: Request, pres: Presentation, r: Result, q: Result)
    requires Meets(AnonCreds, canon, encode, req, pres, r) && Meets(Indy, canon, encode, req, pres, q)
    ensures r.Accepted? <==> q.Accepted?
    ensures r.Accepted? ==> r == q
    ensures r.Failed? ==> r == q || (r.why.PredicateNotFound? && (q.why.PredicateValueDiffers? || q.why == UnboundEscapes))
  {
  }

  /** The Indy copy lets an unbound-variable error escape exactly when the very first predicate is the failing
      one and its sub-proof, though present, holds no ge-proof at all. */
  lemma UnboundEscapesIff(canon: Coder, encode: Coder, req: Request, pres: Presentation, q: Result)
    requires Meets(Indy, canon, encode, req, pres, q)
    ensures q == Failed(UnboundEscapes) <==>
      && req.predicates.Some? && req.attributes.Some?
      && pres.Presentation? && pres.requested.Some? && pres.proofs.Some?
      && req.predicates.value != []
      && var uuid := req.predicates.value[0].uuid; var at := pres.requested.value.predicates;
      && uuid in at && at[uuid] < |pres.proofs.value|
      && pres.proofs.value[at[uuid]].geProofs == Some([])
  {
    if req.predicates.Some? && req.attributes.Some? && pres.Presentation? && pres.requested.Some? && pres.proofs.Some? {
      var preds, attrs, rq, proofs := req.predicates.value, req.attributes.value, pres.requested.value, pres.proofs.value;
      forall a ensures AttributeFailure(canon, encode, a, rq, proofs) != Some(UnboundEscapes) {
        AttributeMeetsSpec(canon, encode, a, rq, proofs);
      }
      if preds != [] && !PredicateOk(canon, preds[0], rq, proofs) {
        assert FirstUnmet(canon, preds, 0, rq, proofs);
        assert preds[0] in preds;
      }
    }
  }

  // ---- In literal terms ----

  /** A predicate is met by a ge-proof of its own sub-proof with its canonical name and its very bound. */
  lemma PredicateMeans(canon: Coder, p: ReqPred, rq: Requested, proofs: seq<SubProof>)
    ensures PredicateOk(canon, p, rq, proofs) <==>
      && p.uuid in rq.predicates && rq.predicates[p.uuid] < |proofs| && proofs[rq.predicates[p.uuid]].geProofs != None
      && exists k :: 0 <= k < |proofs[rq.predicates[p.uuid]].geProofs.value|
           && proofs[rq.predicates[p.uuid]].geProofs.value[k].attrName == canon(p.name)
           && proofs[rq.predicates[p.uuid]].geProofs.value[k].value == p.pValue
  {
    if p.uuid in rq.predicates && rq.predicates[p.uuid] < |proofs| && proofs[rq.predicates[p.uuid]].geProofs != None {
      var ges := proofs[rq.predicates[p.uuid]].geProofs.value;
      if k :| 0 <= k < |ges| && ges[k].attrName == canon(p.name) && ges[k].value == p.pValue {
        assert ges[k] in ges && Proves(ges[k], canon, p);
      }
    }
  }

  /** What is shown for an attribute, checked against its sub-proof: the first thing wrong with it. */
  lemma ShownReports(canon: Coder, encode: Coder, attr: string, shown: Shown, proofs: seq<SubProof>)
    ensures ShownFailure(canon, encode, attr, shown, proofs) ==
      if shown.index >= |proofs| then Some(IndexEscapes)
      else match proofs[shown.index].revealed
           case None => Some(MissingRevealed(attr))
           case Some(values) =>
             if canon(attr) !in values then Some(MissingRevealed(attr))
             else if values[canon(attr)] == shown.encoded && shown.encoded == encode(shown.raw) then None
             else Some(EncodingMismatch(attr))
  {
  }

  /** What becomes of a requested attribute: revealed it is checked, unrevealed it passes, self-attested it passes
      unless it is restricted; a group must be revealed whole, and its first bad member is reported. */
  lemma AttributeReports(canon: Coder, encode: Coder, a: ReqAttr, rq: Requested, proofs: seq<SubProof>)
    ensures a.ByName? ==>
      AttributeFailure(canon, encode, a, rq, proofs) ==
      if a.uuid in rq.revealed then ShownFailure(canon, encode, a.name, rq.revealed[a.uuid], proofs)
      else if a.uuid in rq.unrevealed then None
      else if a.uuid !in rq.selfAttested then Some(MissingAttribute(a.name))
      else if a.restricted then Some(RestrictedSelfAttested(a.name)) else None
    ensures a.Nameless? ==> AttributeFailure(canon, encode, a, rq, proofs) == Some(NoNames(a.uuid))
    ensures a.ByNames? && a.uuid !in rq.groups ==> AttributeFailure(canon, encode, a, rq, proofs) == Some(KeyEscapes)
    ensures a.ByNames? && a.uuid in rq.groups && (exists attr :: attr in a.names && attr !in rq.groups[a.uuid].values) ==>
      AttributeFailure(canon, encode, a, rq, proofs) == Some(TypeEscapes)
    ensures a.ByNames? && a.uuid in rq.groups && (forall attr :: attr in a.names ==> attr in rq.groups[a.uuid].values) ==>
      var g := rq.groups[a.uuid];
      forall n :: 0 <= n < |a.names|
        && (forall k :: 0 <= k < n ==> MemberFailure(canon, encode, a.names[k], g, proofs) == None)
        && MemberFailure(canon, encode, a.names[n], g, proofs) != None
        ==> AttributeFailure(canon, encode, a, rq, proofs) == MemberFailure(canon, encode, a.names[n], g, proofs)
  {
    if a.ByName? && a.uuid in rq.revealed {
      assert SpecsFailure(canon, encode, [], proofs) == None;
      assert [(a.name, rq.revealed[a.uuid])][1..] == [];
    }
    if a.ByNames? && a.uuid in rq.groups && forall attr :: attr in a.names ==> attr in rq.groups[a.uuid].values {
      var g := rq.groups[a.uuid];
      forall n | 0 <= n < |a.names|
        && (forall k :: 0 <= k < n ==> MemberFailure(canon, encode, a.names[k], g, proofs) == None)
        && MemberFailure(canon, encode, a.names[n], g, proofs) != None
        ensures AttributeFailure(canon, encode, a, rq, proofs) == MemberFailure(canon, encode, a.names[n], g, proofs)
      {
        FirstSpecFails(canon, encode, GroupSpecs(a.names, g), proofs, n);
      }
    }
  }

  /** The check on one member of a group that is revealed whole. */
  function MemberFailure(canon: Coder, encode: Coder, attr: string, g: Group, proofs: seq<SubProof>): Option<Failure> {
    if attr !in g.values then None
    else ShownFailure(canon, encode, attr, Shown(g.index, g.values[attr].0, g.values[attr].1), proofs)
  }

  lemma {:induction false} FirstSpecFails(canon: Coder, encode: Coder, specs: seq<(string, Shown)>, proofs: seq<SubProof>, n: nat)
    requires n < |specs| && ShownFailure(canon, encode, specs[n].0, specs[n].1, proofs) != None
    requires forall k :: 0 <= k < n ==> ShownFailure(canon, encode, specs[k].0, specs[k].1, proofs) == None
    ensures SpecsFailure(canon, encode, specs, proofs) == ShownFailure(canon, encode, specs[n].0, specs[n].1, proofs)
  {
    if n > 0 {
      FirstSpecFails(canon, encode, specs[1..], proofs, n - 1);
    }
  }

  /** The attribute is revealed in its sub-proof as it is shown, with the encoding of the raw value shown. */
  predicate RevealedAsShown(canon: Coder, encode: Coder, attr: string, index: nat, raw: string, encoded: string, proofs: seq<SubProof>) {
    && index < |proofs|
    && match proofs[index].revealed
       case None => false
       case Some(values) => canon(attr) in values && values[canon(attr)] == encoded && encoded == encode(raw)
  }

  /** An attribute is acceptable when it is revealed as shown, else unrevealed, else self-attested without
      restrictions; a group when every member is revealed as shown. */
  lemma AttributeMeans(canon: Coder, encode: Coder, a: ReqAttr, rq: Requested, proofs: seq<SubProof>)
    ensures a.ByName? ==> (AttributeOk(canon, encode, a, rq, proofs) <==>
      if a.uuid in rq.revealed then
        var shown := rq.revealed[a.uuid];
        RevealedAsShown(canon, encode, a.name, shown.index, shown.raw, shown.encoded, proofs)
      else a.uuid in rq.unrevealed || (a.uuid in rq.selfAttested && !a.restricted))
    ensures a.ByNames? ==> (AttributeOk(canon, encode, a, rq, proofs) <==>
      && a.uuid in rq.groups
      && forall attr :: attr in a.names ==>
           && attr in rq.groups[a.uuid].values
           && var (raw, encoded) := rq.groups[a.uuid].values[attr];
              RevealedAsShown(canon, encode, attr, rq.groups[a.uuid].index, raw, encoded, proofs))
    ensures a.Nameless? ==> !AttributeOk(canon, encode, a, rq, proofs)
  {
  }

  /** A predicate that is not met, in literal terms: what either copy says about the first one. */
  lemma PredicateReports(copy: Copy, canon: Coder, preds: seq<ReqPred>, n: nat, rq: Requested, proofs: seq<SubProof>)
    requires n < |preds|
    ensures var p, f := preds[n], PredicateFailure(copy, canon, preds, n, rq, proofs);
      && (p.uuid !in rq.predicates ==> f == MissingPredicate(p.uuid))
      && (p.uuid in rq.predicates && rq.predicates[p.uuid] >= |proofs| ==> f == IndexEscapes)
      && (p.uuid in rq.predicates && rq.predicates[p.uuid] < |proofs| ==>
            match proofs[rq.predicates[p.uuid]].geProofs
            case None => f == MissingPredicate(p.uuid)
            case Some(ges) =>
              && (copy == AnonCreds ==> f == PredicateNotFound(canon(p.name)))
              && (copy == Indy && ges != [] ==> f == PredicateValueDiffers(ges[|ges| - 1].attrName))
              && (copy == Indy && ges == [] && n > 0 ==> f == PredicateValueDiffers(canon(preds[n - 1].name)))
              && (copy == Indy && ges == [] && n == 0 ==> f == UnboundEscapes))
  {
  }

  // ---- The loops of the source ----

  /** The search among ge-proofs; `pred` is the variable that keeps the last one looked at. */
  method SearchGeProofs(canon: Coder, p: ReqPred, ges: seq<GeProof>, before: Option<GeProof>)
    returns (matched: bool, pred: Option<GeProof>)
    ensures matched <==> exists g :: g in ges && Proves(g, canon, p)
    ensures matched ==> pred.Some? && Proves(pred.value, canon, p)
    ensures matched <==> exists k :: 0 <= k < |ges| && ges[k].attrName == canon(p.name) && ges[k].value == p.pValue
    ensures matched ==> pred != None && pred.value.attrName == canon(p.name) && pred.value.value == p.pValue
    ensures !matched ==> pred == if ges == [] then before else Some(LastOf(ges))
  {
    matched, pred := false, before;
    var n := 0;
    while n < |ges|
      invariant n <= |ges|
      invariant forall k :: 0 <= k < n ==> ges[k].attrName != canon(p.name) || ges[k].value != p.pValue
      invariant pred == if n == 0 then before else Some(ges[n - 1])
    {
      pred := Some(ges[n]);
      if ges[n].attrName == canon(p.name) && ges[n].value == p.pValue {
        assert ges[n] in ges;
        return true, pred;
      }
      n := n + 1;
    }
  }

  method CheckPredicates(copy: Copy, canon: Coder, preds: seq<ReqPred>, rq: Requested, proofs: seq<SubProof>)
    returns (f: Option<Failure>)
    ensures f.None? <==> forall p :: p in preds ==> PredicateOk(canon, p, rq, proofs)
    ensures f.Some? ==> exists n :: FirstUnmet(canon, preds, n, rq, proofs) && f.value == PredicateFailure(copy, canon, preds, n, rq, proofs)
  {
    var pred: Option<GeProof> := None;
    for n := 0 to |preds|
      invariant forall k :: 0 <= k < n ==> PredicateOk(canon, preds[k], rq, proofs)
      invariant pred.Some? <==> n > 0
      invariant n > 0 ==> pred.value.attrName == canon(preds[n - 1].name)
    {
      var p := preds[n];
      if p.uuid !in rq.predicates {
        assert FirstUnmet(canon, preds, n, rq, proofs);
        return Some(MissingPredicate(p.uuid));
      }
      if rq.predicates[p.uuid] >= |proofs| {
        assert FirstUnmet(canon, preds, n, rq, proofs);
        return Some(IndexEscapes);
      }
      var ges := proofs[rq.predicates[p.uuid]].geProofs;
      if ges.None? {
        assert FirstUnmet(canon, preds, n, rq, proofs);
        return Some(MissingPredicate(p.uuid));
      }
      var matched, last := SearchGeProofs(canon, p, ges.value, pred);
      if !matched {
        assert FirstUnmet(canon, preds, n, rq, proofs);
        if copy == AnonCreds {
          return Some(PredicateNotFound(canon(p.name)));
        } else if last.None? {
          return Some(UnboundEscapes);
        } else {
          return Some(PredicateValueDiffers(last.value.attrName));
        }
      }
      pred := last;
    }
    f := None;
  }

  /** The checks on one requested attribute: what is shown for it, then each shown value in turn. */
  method CheckAttribute(canon: Coder, encode: Coder, a: ReqAttr, rq: Requested, proofs: seq<SubProof>)
    returns (f: Option<Failure>)
    ensures f == AttributeFailure(canon, encode, a, rq, proofs)
  {
    var specs: seq<(string, Shown)> := [];
    match a {
      case ByName(uuid, name, restricted) =>
        if uuid in rq.revealed {
          specs := [(name, rq.revealed[uuid])];
        } else if uuid in rq.unrevealed {
        } else if uuid in rq.selfAttested {
          return if restricted then Some(RestrictedSelfAttested(name)) else None;
        } else {
          return Some(MissingAttribute(name));
        }
      case ByNames(uuid, names) =>
        if uuid !in rq.groups {
          return Some(KeyEscapes);
        }
        var g := rq.groups[uuid];
        for n := 0 to |names|
          invariant forall attr :: attr in names[..n] ==> attr in g.values
          invariant specs == GroupSpecs(names[..n], g)
        {
          if names[n] !in g.values {
            assert names[n] in names;
            return Some(TypeEscapes);
          }
          specs := specs + [(names[n], Shown(g.index, g.values[names[n]].0, g.values[names[n]].1))];
          assert names[..n + 1] == names[..n] + [names[n]];
        }
        assert names[..|names|] == names;
      case Nameless(uuid) =>
        return Some(NoNames(uuid));
    }
    for n := 0 to |specs|
      invariant SpecsFailure(canon, encode, specs, proofs) == SpecsFailure(canon, encode, specs[n..], proofs)
    {
      var (attr, shown) := specs[n];
      assert specs[n..][0] == specs[n] && specs[n..][1..] == specs[n + 1..];
      if shown.index >= |proofs| {
        return Some(IndexEscapes);
      }
      var revealed := proofs[shown.index].revealed;
      if revealed.None? || canon(attr) !in revealed.value {
        return Some(MissingRevealed(attr));
      }
      var primary := revealed.value[canon(attr)];
      if primary != shown.encoded {
        return Some(EncodingMismatch(attr));
      }
      if primary != encode(shown.raw) {
        return Some(EncodingMismatch(attr));
      }
    }
    f := None;
  }

  /** Attributes pass one by one as they are acceptable one by one. */
  lemma AttributesMeetSpec(canon: Coder, encode: Coder, attrs: seq<ReqAttr>, n: nat, rq: Requested, proofs: seq<SubProof>)
    requires n <= |attrs|
    requires forall k :: 0 <= k < n ==> AttributeFailure(canon, encode, attrs[k], rq, proofs).None?
    ensures n == |attrs| ==> forall a :: a in attrs ==> AttributeOk(canon, encode, a, rq, proofs)
    ensures n < |attrs| && AttributeFailure(canon, encode, attrs[n], rq, proofs).Some? ==>
      exists a :: a in attrs && !AttributeOk(canon, encode, a, rq, proofs)
  {
    forall k | 0 <= k < |attrs|
      ensures AttributeFailure(canon, encode, attrs[k], rq, proofs).None? <==> AttributeOk(canon, encode, attrs[k], rq, proofs)
    {
      AttributeMeetsSpec(canon, encode, attrs[k], rq, proofs);
    }
    if n < |attrs| {
      assert attrs[n] in attrs;
    }
  }

  lemma MessagesAppend(attrs: seq<ReqAttr>, n: nat, rq: Requested)
    requires n < |attrs|
    ensures Messages(attrs[..n + 1], rq) == Messages(attrs[..n], rq) +
      (if attrs[n].ByName? && attrs[n].uuid !in rq.revealed && attrs[n].uuid in rq.unrevealed then [attrs[n].uuid] else [])
  {
    assert attrs[..n + 1][..n] == attrs[..n];
  }

  method CheckAttributes(canon: Coder, encode: Coder, attrs: seq<ReqAttr>, rq: Requested, proofs: seq<SubProof>)
    returns (r: Result)
    ensures r.Accepted? <==> forall a :: a in attrs ==> AttributeOk(canon, encode, a, rq, proofs)
    ensures r.Accepted? ==> r.msgs == Messages(attrs, rq)
    ensures r.Failed? ==> exists n ::
      && 0 <= n < |attrs|
      && (forall k :: 0 <= k < n ==> AttributeFailure(canon, encode, attrs[k], rq, proofs).None?)
      && AttributeFailure(canon, encode, attrs[n], rq, proofs) == Some(r.why)
  {
    var msgs: seq<Uuid> := [];
    for n := 0 to |attrs|
      invariant forall k :: 0 <= k < n ==> AttributeFailure(canon, encode, attrs[k], rq, proofs).None?
      invariant msgs == Messages(attrs[..n], rq)
    {
      var a := attrs[n];
      var f := CheckAttribute(canon, encode, a, rq, proofs);
      if f.Some? {
        AttributesMeetSpec(canon, encode, attrs, n, rq, proofs);
        return Failed(f.value);
      }
      MessagesAppend(attrs, n, rq);
      if a.ByName? && a.uuid !in rq.revealed && a.uuid in rq.unrevealed {
        msgs := msgs + [a.uuid];
      }
    }
    assert attrs[..|attrs|] == attrs;
    AttributesMeetSpec(canon, encode, attrs, |attrs|, rq, proofs);
    r := Accepted(msgs);
  }

  lemma BoundsProved(canon: Coder, encode: Coder, req: Request, pres: Presentation)
    ensures Acceptable(canon, encode, req, pres) ==> forall p :: p in req.predicates.value ==>
      var at := pres.requested.value.predicates;
      && p.uuid in at && at[p.uuid] < |pres.proofs.value| && pres.proofs.value[at[p.uuid]].geProofs != None
      && var ges := pres.proofs.value[at[p.uuid]].geProofs.value;
      exists k :: 0 <= k < |ges| && ges[k].attrName == canon(p.name) && ges[k].value == p.pValue
  {
    if Acceptable(canon, encode, req, pres) {
      forall p | p in req.predicates.value
        ensures PredicateOk(canon, p, pres.requested.value, pres.proofs.value)
      {
      }
      forall p | p in req.predicates.value
        ensures
          var at := pres.requested.value.predicates;
          && p.uuid in at && at[p.uuid] < |pres.proofs.value| && pres.proofs.value[at[p.uuid]].geProofs != None
          && var ges := pres.proofs.value[at[p.uuid]].geProofs.value;
          exists k :: 0 <= k < |ges| && ges[k].attrName == canon(p.name) && ges[k].value == p.pValue
      {
        PredicateMeans(canon, p, pres.requested.value, pres.proofs.value);
      }
    }
  }

  method PreVerifyPresentation(copy: Copy, canon: Coder, encode: Coder, req: Request, pres: Presentation) returns (r: Result)
    ensures Meets(copy, canon, encode, req, pres, r)
    ensures req.predicates == None || req.attributes == None ==> r == Failed(IncompleteRequest)
    ensures req.predicates != None && req.attributes != None ==>
      && (pres == Empty ==> r == Failed(NothingProvided))
      && (pres != Empty && pres.requested == None ==> r == Failed(NoRequestedProof))
      && (pres != Empty && pres.requested != None && pres.proofs == None ==> r == Failed(NoProof))
    ensures r.Accepted? <==>
      && req.predicates != None && req.attributes != None
      && pres != Empty && pres.requested != None && pres.proofs != None
      && (forall p :: p in req.predicates.value ==> PredicateOk(canon, p, pres.requested.value, pres.proofs.value))
      && (forall a :: a in req.attributes.value ==> AttributeOk(canon, encode, a, pres.requested.value, pres.proofs.value))
    // Whatever is accepted proves every requested bound by name and value.
    ensures r.Accepted? ==> forall p :: p in req.predicates.value ==>
      var at := pres.requested.value.predicates;
      && p.uuid in at && at[p.uuid] < |pres.proofs.value| && pres.proofs.value[at[p.uuid]].geProofs != None
      && var ges := pres.proofs.value[at[p.uuid]].geProofs.value;
      exists k :: 0 <= k < |ges| && ges[k].attrName == canon(p.name) && ges[k].value == p.pValue
    ensures forall p ::
      && req.predicates != None && p in req.predicates.value
      && pres != Empty && pres.requested != None && pres.proofs != None
      && p.uuid in pres.requested.value.predicates
      && pres.requested.value.predicates[p.uuid] < |pres.proofs.value|
      && pres.proofs.value[pres.requested.value.predicates[p.uuid]].geProofs != None
      && (forall k :: 0 <= k < |pres.proofs.value[pres.requested.value.predicates[p.uuid]].geProofs.value| ==>
            var g := pres.proofs.value[pres.requested.value.predicates[p.uuid]].geProofs.value[k];
            g.attrName != canon(p.name) || g.value != p.pValue)
      ==> r.Failed?
  {
    BoundsProved(canon, encode, req, pres);
    if req.predicates.None? || req.attributes.None? {
      return Failed(IncompleteRequest);
    }
    if pres.Empty? {
      return Failed(NothingProvided);
    }
    if pres.requested.None? {
      return Failed(NoRequestedProof);
    }
    if pres.proofs.None? {
      return Failed(NoProof);
    }
    var rq, proofs := pres.requested.value, pres.proofs.value;
    var f := CheckPredicates(copy, canon, req.predicates.value, rq, proofs);
    if f.Some? {
      return Failed(f.value);
    }
    r := CheckAttributes(canon, encode, req.attributes.value, rq, proofs);
  }
}
