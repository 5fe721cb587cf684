/**
 The on-chain protocol as a state machine: attestation witnesses, signature receipts and device
 bindings as the values and objects of one ledger, with a history of what was checked when.
 Each step is one successful Move call; a call that aborts changes nothing.
 */
module Ledger {
  import opened Bytes
  import opened Bcs
  import opened Nitro
  import opened ActionMessages
  import Compression

  /** Scheme markers: those of the repository's three verifier packages, and any other type. */
  datatype Scheme = Secp256r1 | Secp256k1 | Ed25519 | ForeignScheme(name: bytes)

  type Address = nat

  /** `DeviceBinding<Source, Scheme>`: the two phantom parameters are fields here. */
  datatype Binding = Binding(source: Source, scheme: Scheme, pk: bytes, issuedAtMs: u64, holder: Address)

  /** `Verified<Scheme>`. */
  datatype Receipt = Receipt(scheme: Scheme, pk: bytes, message: bytes)

  datatype Event =
    | DeviceBound(id: Id, source: Source, scheme: Scheme)
    | DeviceBindingDestroyed(id: Id)

  /** Foreign code: SHA-256 and the native signature checks, given the key octets they receive. */
  datatype Env = Env(sha256: bytes -> Digest, native: (Scheme, bytes, bytes, bytes) -> bool)

  /** What one step checked or did, and when. A step is named by its place in the history. */
  datatype Entry =
    | Attested(time: u64, source: Source, pinned: Pcrs, doc: Document, payload: Payload)
    | WitnessIssued(time: u64, issued: Witness)
    | ReceiptIssued(time: u64, issuedReceipt: Receipt)
    | SignatureChecked(time: u64, scheme: Scheme, pk: bytes, message: bytes, signature: bytes)
    | Bound(time: u64, id: Id, source: Source, scheme: Scheme, pk: bytes, origin: nat, sender: Address)
    | ActionChecked(time: u64, id: Id, receipt: nat, domain: bytes, actionHash: bytes, expiryMs: u64, result: bool)
    | Transferred(time: u64, id: Id, recipient: Address)
    | Destroyed(time: u64, id: Id)
    | Dropped(time: u64, place: nat)
    | PolicyUpdated(time: u64, pinned: Pcrs)

  /** Witnesses and receipts are named by the place of the step that made them. */
  datatype World = World(
    clock: u64,
    pinned: Pcrs,
    witnesses: map<nat, Witness>,
    receipts: map<nat, Receipt>,
    bindings: map<Id, Binding>,
    destroyed: set<Id>,
    events: seq<Event>,
    history: seq<Entry>)

  datatype Action =
    | AttestVerify(source: Source, doc: Document, payload: Payload)
    | SchemeVerify(scheme: Scheme, pk: bytes, message: bytes, signature: bytes)
    | IssueWitness(issued: Witness)
    | IssueReceipt(issuedReceipt: Receipt)
    | New(sender: Address, origin: nat, scheme: Scheme, pk: bytes, id: Id)
    | TransferTo(sender: Address, id: Id, recipient: Address)
    | VerifyAction(sender: Address, id: Id, receipt: nat, domain: bytes, actionHash: bytes, expiryMs: u64)
    | Destroy(sender: Address, id: Id)
    | Drop(place: nat)
    | AdvanceClock(to: u64)
    | UpdatePolicy(newPinned: Pcrs)

  function Init(clock: u64, pinned: Pcrs): World {
    World(clock, pinned, map[], map[], map[], {}, [], [])
  }

  /**
   The key octets that a scheme's verifier hands to the native check; a short ECDSA key aborts, and a
   foreign scheme has no verifier that is known to check anything.
   */
  function NativeKey(scheme: Scheme, pk: bytes): Option<bytes> {
    match scheme
    case Ed25519 => Some(pk)
    case ForeignScheme(_) => None
    case _ => if |pk| >= 65 then Some(Compression.Compressed(pk)) else None
  }

  /** `verify` of the scheme's package succeeds. */
  predicate SignatureValid(env: Env, scheme: Scheme, pk: bytes, message: bytes, signature: bytes) {
    NativeKey(scheme, pk).Some? && env.native(scheme, NativeKey(scheme, pk).value, message, signature)
  }

  /** The value of `verify_action`; that the schemes agree is enforced by the types. */
  predicate Authorizes(id: Id, b: Binding, r: Receipt, domain: bytes, actionHash: bytes, expiryMs: u64, now: u64) {
    now <= expiryMs && r.pk == b.pk && r.message == CanonicalMessage(id, domain, actionHash, expiryMs)
  }

  predicate Holds(w: World, sender: Address, id: Id) {
    id in w.bindings && w.bindings[id].holder == sender
  }

  function Step(env: Env, w: World, a: Action): Option<World> {
    match a
    case AttestVerify(source, doc, payload) =>
      if !Takes(source, payload) then None
      else
        var minted :- Mint(env.sha256, source, w.pinned, doc, payload, w.clock);
        Some(w.(witnesses := w.witnesses[|w.history| := minted],
                history := w.history + [Attested(w.clock, source, w.pinned, doc, payload)]))
    case SchemeVerify(scheme, pk, message, signature) =>
      if !SignatureValid(env, scheme, pk, message, signature) then None
      else Some(w.(receipts := w.receipts[|w.history| := Receipt(scheme, pk, message)],
                   history := w.history + [SignatureChecked(w.clock, scheme, pk, message, signature)]))
    case IssueWitness(issued) =>
      // `witness::new`: any package can call it for a marker that it defines, with any fields.
      if !issued.source.ForeignSource? then None
      else Some(w.(witnesses := w.witnesses[|w.history| := issued],
                   history := w.history + [WitnessIssued(w.clock, issued)]))
    case IssueReceipt(receipt) =>
      // `verified`: likewise.
      if !receipt.scheme.ForeignScheme? then None
      else Some(w.(receipts := w.receipts[|w.history| := receipt],
                   history := w.history + [ReceiptIssued(w.clock, receipt)]))
    case New(sender, n, scheme, pk, id) =>
      // Object ids are fresh on Sui; the key must be the attested one; the witness is used up.
      if n !in w.witnesses || w.witnesses[n].attestedValue != pk || id in w.bindings || id in w.destroyed then None
      else
        var source := w.witnesses[n].source;
        Some(w.(witnesses := w.witnesses - {n},
                bindings := w.bindings[id := Binding(source, scheme, pk, w.clock, sender)],
                events := w.events + [DeviceBound(id, source, scheme)],
                history := w.history + [Bound(w.clock, id, source, scheme, pk, n, sender)]))
    case TransferTo(sender, id, recipient) =>
      if !Holds(w, sender, id) then None
      else Some(w.(bindings := w.bindings[id := w.bindings[id].(holder := recipient)],
                   history := w.history + [Transferred(w.clock, id, recipient)]))
    case VerifyAction(sender, id, n, domain, actionHash, expiryMs) =>
      if !Holds(w, sender, id) || n !in w.receipts || w.receipts[n].scheme != w.bindings[id].scheme then None
      else
        var result := Authorizes(id, w.bindings[id], w.receipts[n], domain, actionHash, expiryMs, w.clock);
        Some(w.(receipts := w.receipts - {n},
                history := w.history + [ActionChecked(w.clock, id, n, domain, actionHash, expiryMs, result)]))
    case Destroy(sender, id) =>
      if !Holds(w, sender, id) then None
      else Some(w.(bindings := w.bindings - {id},
                   destroyed := w.destroyed + {id},
                   events := w.events + [DeviceBindingDestroyed(id)],
                   history := w.history + [Destroyed(w.clock, id)]))
    case Drop(n) =>
      Some(w.(witnesses := w.witnesses - {n}, receipts := w.receipts - {n},
              history := w.history + [Dropped(w.clock, n)]))
    case AdvanceClock(to) =>
      if to < w.clock then None else Some(w.(clock := to))
    case UpdatePolicy(newPinned) =>
      Some(w.(pinned := newPinned, history := w.history + [PolicyUpdated(w.clock, newPinned)]))
  }

  /** The world after all of `actions`, if none of them aborts. */
  function Run(env: Env, w: World, actions: seq<Action>): Option<World> {
    if actions == [] then Some(w)
    else
      var v :- Run(env, w, actions[..|actions| - 1]);
      Step(env, v, actions[|actions| - 1])
  }

  // What every step keeps.

  /** The check that an entry records did succeed. */
  predicate Sound(env: Env, e: Entry) {
    match e
    case Attested(time, source, pinned, doc, payload) =>
      Takes(source, payload) && Accepts(env.sha256, pinned, doc, payload, time)
    case SignatureChecked(_, scheme, pk, message, signature) => SignatureValid(env, scheme, pk, message, signature)
    case WitnessIssued(_, issued) => issued.source.ForeignSource?
    case ReceiptIssued(_, receipt) => receipt.scheme.ForeignScheme?
    case _ => true
  }

  /** The witness that an attestation entry minted. */
  function WitnessOf(env: Env, e: Entry): Witness
    requires e.Attested? && Sound(env, e)
  {
    Mint(env.sha256, e.source, e.pinned, e.doc, e.payload, e.time).value
  }

  function AttestedKey(p: Payload): bytes {
    match p
    case Attestation(key, _, _) => key
    case Assertion(key, _) => key
  }

  /** Source and key of the witness that an entry minted. */
  function MintedFor(e: Entry): Option<(Source, bytes)> {
    match e
    case Attested(_, source, _, _, payload) => Some((source, AttestedKey(payload)))
    case WitnessIssued(_, issued) => Some((issued.source, issued.attestedValue))
    case _ => None
  }

  /** The receipt that an entry minted. */
  function ReceiptOf(e: Entry): Option<Receipt> {
    match e
    case SignatureChecked(_, scheme, pk, message, _) => Some(Receipt(scheme, pk, message))
    case ReceiptIssued(_, receipt) => Some(receipt)
    case _ => None
  }

  ghost predicate HistorySound(env: Env, h: seq<Entry>) {
    forall i | 0 <= i < |h| :: Sound(env, h[i])
  }

  ghost predicate InOrder(w: World) {
    forall i | 0 <= i < |w.history| ::
      w.history[i].time <= w.clock && forall j | i < j < |w.history| :: w.history[i].time <= w.history[j].time
  }

  /** Outstanding witnesses and receipts come from the entries they are named by. */
  ghost predicate Outstanding(env: Env, w: World) {
    && (forall n | n in w.witnesses ::
          n < |w.history|
          && match w.history[n] {
            case WitnessIssued(_, issued) => w.witnesses[n] == issued
            case Attested(_, _, _, _, _) =>
              Sound(env, w.history[n]) && w.witnesses[n] == WitnessOf(env, w.history[n])
            case _ => false
          })
    && (forall n | n in w.receipts :: n < |w.history| && ReceiptOf(w.history[n]) == Some(w.receipts[n]))
  }

  /** A binding entry rests on an earlier witness for its key, of its source. */
  ghost predicate BoundFromWitness(h: seq<Entry>, j: nat)
    requires j < |h| && h[j].Bound?
  {
    var n := h[j].origin;
    n < j && MintedFor(h[n]) == Some((h[j].source, h[j].pk))
  }

  /** Witnesses are used at most once, and a used one is no longer outstanding; ids are never reused. */
  ghost predicate UsedOnce(w: World) {
    && (forall j | 0 <= j < |w.history| && w.history[j].Bound? ::
          BoundFromWitness(w.history, j) && w.history[j].origin !in w.witnesses
          && (w.history[j].id in w.bindings || w.history[j].id in w.destroyed))
    && (forall i, j | 0 <= i < j < |w.history| && w.history[i].Bound? && w.history[j].Bound? ::
          w.history[i].origin != w.history[j].origin && w.history[i].id != w.history[j].id)
  }

  /** The entry that bound a device under this id, with the binding's key, types and issue time. */
  ghost predicate BoundAs(h: seq<Entry>, j: nat, id: Id, b: Binding) {
    && j < |h| && h[j].Bound? && h[j].id == id
    && h[j].source == b.source && h[j].scheme == b.scheme && h[j].pk == b.pk && h[j].time == b.issuedAtMs
  }

  ghost predicate BindingsRecorded(w: World) {
    && (forall id | id in w.bindings :: exists j: nat :: BoundAs(w.history, j, id, w.bindings[id]))
    && w.bindings.Keys !! w.destroyed
  }

  /**
   What an accepted action rests on: its binding entry `b` and, before it, the receipt minted at `s` for
   the bound key over exactly the canonical message of this binding and action.
   */
  ghost predicate Backed(h: seq<Entry>, j: nat, b: nat, s: nat)
    requires j < |h| && h[j].ActionChecked?
  {
    && b < j && h[b].Bound? && h[b].id == h[j].id
    && s < j && s == h[j].receipt
    && ReceiptOf(h[s]) == Some(Receipt(h[b].scheme, h[b].pk,
                                       CanonicalMessage(h[j].id, h[j].domain, h[j].actionHash, h[j].expiryMs)))
    && h[j].time <= h[j].expiryMs
  }

  ghost predicate ActionsBacked(h: seq<Entry>) {
    forall j | 0 <= j < |h| && h[j].ActionChecked? && h[j].result :: exists b: nat, s: nat :: Backed(h, j, b, s)
  }

  ghost predicate Invariant(env: Env, w: World) {
    && HistorySound(env, w.history) && InOrder(w) && Outstanding(env, w)
    && UsedOnce(w) && BindingsRecorded(w) && ActionsBacked(w.history)
  }

  lemma InitInvariant(env: Env, clock: u64, pinned: Pcrs)
    ensures Invariant(env, Init(clock, pinned))
  {
  }

  /** A step records at most one entry, at the end, at the current time; the clock never goes back. */
  lemma StepHistory(env: Env, w: World, a: Action)
    requires Step(env, w, a).Some?
    ensures var v := Step(env, w, a).value;
            && w.clock <= v.clock
            && (v.history == w.history
                || (|v.history| == |w.history| + 1 && v.history[..|w.history|] == w.history
                    && v.history[|w.history|].time == w.clock && v.clock == w.clock))
  {
    hide Mint, CanonicalMessage, SignatureValid, Authorizes;
  }

  lemma StepSound(env: Env, w: World, a: Action)
    requires HistorySound(env, w.history) && Step(env, w, a).Some?
    ensures HistorySound(env, Step(env, w, a).value.history)
  {
    hide Accepts, CanonicalMessage, SignatureValid, Authorizes;
  }

  lemma StepInOrder(env: Env, w: World, a: Action)
    requires InOrder(w) && Step(env, w, a).Some?
    ensures InOrder(Step(env, w, a).value)
  {
    hide Step;
    StepHistory(env, w, a);
    var v := Step(env, w, a).value;
    forall i | 0 <= i < |w.history| ensures v.history[i] == w.history[i] {
      assert v.history[..|w.history|][i] == w.history[i];
    }
  }

  lemma StepOutstanding(env: Env, w: World, a: Action)
    requires Outstanding(env, w) && Step(env, w, a).Some?
    ensures Outstanding(env, Step(env, w, a).value)
  {
    hide Accepts, CanonicalMessage, SignatureValid, Authorizes;
  }

  lemma WitnessFacts(env: Env, w: World, n: nat)
    requires Outstanding(env, w) && n in w.witnesses
    ensures n < |w.history| && MintedFor(w.history[n]) == Some((w.witnesses[n].source, w.witnesses[n].attestedValue))
  {
    hide Accepts;
  }

  /** Adding an entry other than a binding, and no older witness, keeps what bindings rest on. */
  lemma UsedOnceKept(w: World, v: World)
    requires UsedOnce(w)
    requires v.history == w.history
             || (|v.history| == |w.history| + 1 && v.history[..|w.history|] == w.history
                 && !v.history[|w.history|].Bound?)
    requires v.witnesses.Keys <= w.witnesses.Keys + {|w.history|}
    requires w.bindings.Keys + w.destroyed <= v.bindings.Keys + v.destroyed
    ensures UsedOnce(v)
  {
    forall j | 0 <= j < |w.history| ensures v.history[j] == w.history[j] {
      assert v.history[..|w.history|][j] == w.history[j];
    }
    forall j | 0 <= j < |v.history| && v.history[j].Bound?
      ensures BoundFromWitness(v.history, j) && v.history[j].origin !in v.witnesses
      ensures v.history[j].id in v.bindings || v.history[j].id in v.destroyed
    {
      assert BoundFromWitness(w.history, j);
      assert w.history[j].id in w.bindings.Keys + w.destroyed;
    }
  }

  lemma NewUsedOnce(env: Env, w: World, a: Action)
    requires a.New? && Outstanding(env, w) && UsedOnce(w) && Step(env, w, a).Some?
    ensures UsedOnce(Step(env, w, a).value)
  {
    hide Outstanding;
    WitnessFacts(env, w, a.origin);
    var h, g := w.history, Step(env, w, a).value.history;
    forall j | 0 <= j < |h| ensures g[j] == h[j] && (h[j].Bound? ==> BoundFromWitness(h, j)) {
    }
    assert BoundFromWitness(g, |h|);
  }

  lemma StepUsedOnce(env: Env, w: World, a: Action)
    requires Outstanding(env, w) && UsedOnce(w) && Step(env, w, a).Some?
    ensures UsedOnce(Step(env, w, a).value)
  {
    hide Mint, CanonicalMessage, SignatureValid, Authorizes, Outstanding, UsedOnce, Takes;
    if a.New? {
      NewUsedOnce(env, w, a);
    } else {
      UsedOnceKept(w, Step(env, w, a).value);
    }
  }

  /** Everything about a binding but its holder. */
  predicate SameDevice(a: Binding, b: Binding) {
    a.source == b.source && a.scheme == b.scheme && a.pk == b.pk && a.issuedAtMs == b.issuedAtMs
  }

  /** A step leaves a binding as it was but for its holder, or records that it made it. */
  lemma StepBindings(env: Env, w: World, a: Action, id: Id)
    requires Step(env, w, a).Some? && id in Step(env, w, a).value.bindings
    ensures var v := Step(env, w, a).value;
            || (id in w.bindings && SameDevice(w.bindings[id], v.bindings[id]))
            || BoundAs(v.history, |w.history|, id, v.bindings[id])
  {
    hide Mint, CanonicalMessage, SignatureValid, Authorizes, Takes;
  }

  lemma StepIdsApart(env: Env, w: World, a: Action)
    requires w.bindings.Keys !! w.destroyed && Step(env, w, a).Some?
    ensures Step(env, w, a).value.bindings.Keys !! Step(env, w, a).value.destroyed
  {
    hide Mint, CanonicalMessage, SignatureValid, Authorizes, Takes;
  }

  lemma StepBindingsRecorded(env: Env, w: World, a: Action)
    requires BindingsRecorded(w) && Step(env, w, a).Some?
    ensures BindingsRecorded(Step(env, w, a).value)
  {
    hide Step;
    StepHistory(env, w, a);
    StepIdsApart(env, w, a);
    var v := Step(env, w, a).value;
    forall id | id in v.bindings ensures exists j: nat :: BoundAs(v.history, j, id, v.bindings[id]) {
      StepBindings(env, w, a, id);
      if !BoundAs(v.history, |w.history|, id, v.bindings[id]) {
        var j: nat :| BoundAs(w.history, j, id, w.bindings[id]);
        assert v.history[..|w.history|][j] == w.history[j];
        assert BoundAs(v.history, j, id, v.bindings[id]);
      }
    }
  }

  lemma ReceiptFacts(env: Env, w: World, n: nat)
    requires Outstanding(env, w) && n in w.receipts
    ensures n < |w.history| && ReceiptOf(w.history[n]) == Some(w.receipts[n])
  {
    hide Accepts;
  }

  lemma StepActionsBacked(env: Env, w: World, a: Action)
    requires Outstanding(env, w) && BindingsRecorded(w) && ActionsBacked(w.history) && Step(env, w, a).Some?
    ensures ActionsBacked(Step(env, w, a).value.history)
  {
    hide Mint, CanonicalMessage, SignatureValid, Takes, Outstanding;
    StepHistory(env, w, a);
    var h, g := w.history, Step(env, w, a).value.history;
    forall j | 0 <= j < |g| && g[j].ActionChecked? && g[j].result ensures exists b: nat, s: nat :: Backed(g, j, b, s) {
      if j < |h| {
        assert g[j] == h[j];
        var b: nat, s: nat :| Backed(h, j, b, s);
        assert g[b] == h[b] && g[s] == h[s];
        assert Backed(g, j, b, s);
      } else {
        var b: nat :| BoundAs(h, b, a.id, w.bindings[a.id]);
        ReceiptFacts(env, w, a.receipt);
        assert g[b] == h[b] && g[a.receipt] == h[a.receipt];
        assert Backed(g, j, b, a.receipt);
      }
    }
  }

  /** Every step keeps the invariant. */
  lemma StepInvariant(env: Env, w: World, a: Action)
    requires Invariant(env, w) && Step(env, w, a).Some?
    ensures Invariant(env, Step(env, w, a).value)
  {
    hide Step, HistorySound, InOrder, Outstanding, UsedOnce, BindingsRecorded, ActionsBacked;
    StepSound(env, w, a);
    StepInOrder(env, w, a);
    StepOutstanding(env, w, a);
    StepUsedOnce(env, w, a);
    StepBindingsRecorded(env, w, a);
    StepActionsBacked(env, w, a);
  }

  lemma {:induction false} RunInvariant(env: Env, w: World, actions: seq<Action>)
    requires Invariant(env, w) && Run(env, w, actions).Some?
    ensures Invariant(env, Run(env, w, actions).value)
  {
    hide Step, Invariant;
    if actions == [] {
    } else {
      var n := |actions| - 1;
      RunInvariant(env, w, actions[..n]);
      StepInvariant(env, Run(env, w, actions[..n]).value, actions[n]);
    }
  }

  // Which policy was in force.

  /** The measurements pinned after `h`: those of its last policy update, or the initial ones. */
  function PolicyAfter(initial: Pcrs, h: seq<Entry>): Pcrs {
    if h == [] then initial
    else if h[|h| - 1].PolicyUpdated? then h[|h| - 1].pinned
    else PolicyAfter(initial, h[..|h| - 1])
  }

  ghost predicate PoliciesInForce(initial: Pcrs, w: World) {
    && w.pinned == PolicyAfter(initial, w.history)
    && forall k | 0 <= k < |w.history| && w.history[k].Attested? ::
         w.history[k].pinned == PolicyAfter(initial, w.history[..k])
  }

  /** A step pins what its policy update says, and checks a document against what is pinned. */
  lemma StepPinned(env: Env, w: World, a: Action)
    requires Step(env, w, a).Some?
    ensures var v := Step(env, w, a).value;
            if |v.history| <= |w.history| then v.pinned == w.pinned
            else
              var e := v.history[|w.history|];
              v.pinned == (if e.PolicyUpdated? then e.pinned else w.pinned) && (e.Attested? ==> e.pinned == w.pinned)
  {
    hide Mint, CanonicalMessage, SignatureValid, Authorizes, Takes;
  }

  lemma StepPolicies(env: Env, initial: Pcrs, w: World, a: Action)
    requires PoliciesInForce(initial, w) && Step(env, w, a).Some?
    ensures PoliciesInForce(initial, Step(env, w, a).value)
  {
    hide Step;
    StepHistory(env, w, a);
    StepPinned(env, w, a);
    var h, g := w.history, Step(env, w, a).value.history;
    if g != h {
      assert g[..|g| - 1] == h;
      forall k | 0 <= k < |h| ensures g[k] == h[k] && g[..k] == h[..k] {
        assert g[..|h|][k] == h[k];
        assert g[..|h|][..k] == g[..k];
      }
    }
  }

  lemma {:induction false} RunPolicies(env: Env, initial: Pcrs, w: World, actions: seq<Action>)
    requires PoliciesInForce(initial, w) && Run(env, w, actions).Some?
    ensures PoliciesInForce(initial, Run(env, w, actions).value)
  {
    hide Step, PoliciesInForce;
    if actions == [] {
    } else {
      var n := |actions| - 1;
      RunPolicies(env, initial, w, actions[..n]);
      StepPolicies(env, initial, Run(env, w, actions[..n]).value, actions[n]);
    }
  }

  // Whole runs.

  /**
   At `k` a document was accepted for this key and source, under the policy then in force and inside the
   freshness window.
   */
  ghost predicate Genuine(env: Env, initial: Pcrs, h: seq<Entry>, k: nat, source: Source, pk: bytes) {
    && k < |h| && h[k].Attested? && h[k].source == source && AttestedKey(h[k].payload) == pk
    && PcrsMatch(PolicyAfter(initial, h[..k]), h[k].doc.pcrs)
    && h[k].doc.userData == Some(env.sha256(Encode(h[k].payload)))
    && h[k].doc.timestamp - MAX_CLOCK_SKEW_MS <= h[k].time <= h[k].doc.timestamp + MAX_OUTCOME_AGE_MS
  }

  /** At `s` the native check of this scheme passed for this key over this message. */
  ghost predicate Signed(env: Env, h: seq<Entry>, s: nat, scheme: Scheme, pk: bytes, message: bytes) {
    && s < |h| && h[s].SignatureChecked? && h[s].scheme == scheme && h[s].pk == pk && h[s].message == message
    && SignatureValid(env, scheme, pk, message, h[s].signature)
  }

  function MessageOf(e: Entry): bytes
    requires e.ActionChecked?
  {
    CanonicalMessage(e.id, e.domain, e.actionHash, e.expiryMs)
  }

  /** The action at `j` is on the binding made at `b`, and was accepted. */
  ghost predicate AcceptedOn(h: seq<Entry>, j: nat, b: nat) {
    b < j < |h| && h[j].ActionChecked? && h[j].result && h[b].Bound? && h[b].id == h[j].id
  }

  /**
   What stands behind an accepted action at `j`: its binding at `b`, whose witness was minted at `k`, and
   its receipt, minted at `s`, all in order and before the expiry. Unless the source of the binding is
   foreign, an accepted document stands behind the witness; unless its scheme is, a signature by the bound
   key over exactly this canonical message stands behind the receipt.
   */
  ghost predicate Authorized(env: Env, initial: Pcrs, h: seq<Entry>, j: nat, k: nat, b: nat, s: nat) {
    && AcceptedOn(h, j, b) && k < b && s < j
    && h[b].origin == k && h[j].receipt == s
    && h[k].time <= h[b].time <= h[j].time && h[s].time <= h[j].time <= h[j].expiryMs
    && (h[b].source.ForeignSource? || Genuine(env, initial, h, k, h[b].source, h[b].pk))
    && (h[b].scheme.ForeignScheme? || Signed(env, h, s, h[b].scheme, h[b].pk, MessageOf(h[j])))
  }

  /** The histories that the protocol can reach. */
  ghost predicate Reached(env: Env, clock: u64, initial: Pcrs, h: seq<Entry>) {
    exists actions: seq<Action> ::
      Run(env, Init(clock, initial), actions).Some? && Run(env, Init(clock, initial), actions).value.history == h
  }

  lemma InitPolicies(clock: u64, initial: Pcrs)
    ensures PoliciesInForce(initial, Init(clock, initial))
  {
  }

  /** A reachable history belongs to a world that keeps the invariant. */
  lemma ReachedWorld(env: Env, clock: u64, initial: Pcrs, h: seq<Entry>) returns (w: World)
    requires Reached(env, clock, initial, h)
    ensures w.history == h && Invariant(env, w) && PoliciesInForce(initial, w)
  {
    hide Run, Invariant, PoliciesInForce;
    var actions :| Run(env, Init(clock, initial), actions).Some?
      && Run(env, Init(clock, initial), actions).value.history == h;
    InitInvariant(env, clock, initial);
    RunInvariant(env, Init(clock, initial), actions);
    InitPolicies(clock, initial);
    RunPolicies(env, initial, Init(clock, initial), actions);
    w := Run(env, Init(clock, initial), actions).value;
  }

  /** In every reachable history, every accepted action is authorized as far as the types of its binding go. */
  lemma AcceptedActionsAuthorized(env: Env, clock: u64, initial: Pcrs, h: seq<Entry>, j: nat)
    requires Reached(env, clock, initial, h)
    requires j < |h| && h[j].ActionChecked? && h[j].result
    ensures exists k: nat, b: nat, s: nat :: Authorized(env, initial, h, j, k, b, s)
  {
    hide Run, Outstanding, BindingsRecorded, Encode, PcrsMatch, PolicyAfter, SignatureValid, CanonicalMessage;
    var w := ReachedWorld(env, clock, initial, h);
    var b: nat, s: nat :| Backed(h, j, b, s);
    var k := h[b].origin;
    assert BoundFromWitness(h, b);
    assert Sound(env, h[k]) && Sound(env, h[s]);
    assert Authorized(env, initial, h, j, k, b, s);
  }

  lemma RunOn(env: Env, w: World, actions: seq<Action>, a: Action)
    ensures Run(env, w, actions + [a])
         == match Run(env, w, actions) case None => None case Some(v) => Step(env, v, a)
  {
    assert (actions + [a])[..|actions|] == actions;
  }

  lemma RunOne(env: Env, w: World, a: Action)
    ensures Run(env, w, [a]) == Step(env, w, a)
  {
    assert [a][..0] == [];
  }

  lemma {:induction false} RunConcat(env: Env, w: World, x: seq<Action>, y: seq<Action>)
    ensures Run(env, w, x + y) == match Run(env, w, x) case None => None case Some(v) => Run(env, v, y)
  {
    hide Step;
    if y == [] {
      assert x + y == x;
    } else {
      var n := |y| - 1;
      RunConcat(env, w, x, y[..n]);
      assert (x + y)[..|x + y| - 1] == x + y[..n];
    }
  }

  lemma RunTwo(env: Env, w: World, a: Action, c: Action)
    ensures Run(env, w, [a, c]) == match Step(env, w, a) case None => None case Some(v) => Step(env, v, c)
  {
    hide Step, Run;
    RunConcat(env, w, [a], [c]);
    RunOne(env, w, a);
    assert [a] + [c] == [a, c];
    if Step(env, w, a).Some? {
      RunOne(env, Step(env, w, a).value, c);
    }
  }

  /** Have a signature checked and use the receipt at once for an action. */
  function Present(w: World, sender: Address, id: Id, message: bytes, signature: bytes,
                   domain: bytes, actionHash: bytes, expiryMs: u64): seq<Action>
    requires id in w.bindings
  {
    [SchemeVerify(w.bindings[id].scheme, w.bindings[id].pk, message, signature),
     VerifyAction(sender, id, |w.history|, domain, actionHash, expiryMs)]
  }

  /**
   The partner: a holder can present any valid signature of the bound key, and the action is accepted
   exactly when the signature is over its canonical message and it has not expired.
   */
  lemma ValidSignatureAccepted(env: Env, w: World, sender: Address, id: Id, message: bytes, signature: bytes,
                               domain: bytes, actionHash: bytes, expiryMs: u64)
    requires Holds(w, sender, id)
    ensures var b, r := w.bindings[id],
              Run(env, w, Present(w, sender, id, message, signature, domain, actionHash, expiryMs));
            && (r.Some? <==> SignatureValid(env, b.scheme, b.pk, message, signature))
            && (r.Some? ==>
                  && r.value.bindings == w.bindings && r.value.clock == w.clock
                  && r.value.history
                     == w.history
                      + [SignatureChecked(w.clock, b.scheme, b.pk, message, signature),
                         ActionChecked(w.clock, id, |w.history|, domain, actionHash, expiryMs,
                                       w.clock <= expiryMs
                                       && message == CanonicalMessage(id, domain, actionHash, expiryMs))])
  {
    hide CanonicalMessage, SignatureValid, Run;
    var b := w.bindings[id];
    RunTwo(env, w, SchemeVerify(b.scheme, b.pk, message, signature),
           VerifyAction(sender, id, |w.history|, domain, actionHash, expiryMs));
    assert forall x: Entry, y: Entry :: w.history + [x] + [y] == w.history + [x, y];
  }

  // What the types of a binding show.

  /** Every accepted action on a binding of this source rests on an accepted document for its key. */
  ghost predicate SourceShowsDocument(env: Env, clock: u64, initial: Pcrs, source: Source) {
    forall h: seq<Entry>, j: nat, b: nat |
      Reached(env, clock, initial, h) && AcceptedOn(h, j, b) && h[b].source == source ::
      exists k: nat :: k < b && Genuine(env, initial, h, k, source, h[b].pk)
  }

  /** Every accepted action on a binding of this scheme rests on a signature of its key over its message. */
  ghost predicate SchemeShowsSignature(env: Env, clock: u64, initial: Pcrs, scheme: Scheme) {
    forall h: seq<Entry>, j: nat, b: nat |
      Reached(env, clock, initial, h) && AcceptedOn(h, j, b) && h[b].scheme == scheme ::
      exists s: nat :: s < j && Signed(env, h, s, scheme, h[b].pk, MessageOf(h[j]))
  }

  /** Binding entries have distinct ids, so an accepted action is on one binding only. */
  lemma OneBinding(env: Env, clock: u64, initial: Pcrs, h: seq<Entry>, j: nat, b: nat, c: nat)
    requires Reached(env, clock, initial, h) && AcceptedOn(h, j, b) && AcceptedOn(h, j, c)
    ensures b == c
  {
    hide Reached, PoliciesInForce, HistorySound, InOrder, Outstanding, BindingsRecorded, ActionsBacked;
    var w := ReachedWorld(env, clock, initial, h);
  }

  /**
   A foreign scheme accepts without a signature: whoever has a witness, of whatever source, can bind its key
   under such a scheme, and the package that defines it issues the receipt unchecked.
   */
  lemma ForeignSchemeAccepts(env: Env, w: World, sender: Address, n: nat, scheme: Scheme, id: Id,
                             domain: bytes, actionHash: bytes, expiryMs: u64)
    requires n in w.witnesses && scheme.ForeignScheme? && id !in w.bindings && id !in w.destroyed
    ensures var pk := w.witnesses[n].attestedValue;
            var receipt := Receipt(scheme, pk, CanonicalMessage(id, domain, actionHash, expiryMs));
            var r := Run(env, w, [New(sender, n, scheme, pk, id), IssueReceipt(receipt)]
                                 + [VerifyAction(sender, id, |w.history| + 1, domain, actionHash, expiryMs)]);
            && r.Some?
            && r.value.history
               == w.history
                + [Bound(w.clock, id, w.witnesses[n].source, scheme, pk, n, sender), ReceiptIssued(w.clock, receipt),
                   ActionChecked(w.clock, id, |w.history| + 1, domain, actionHash, expiryMs, w.clock <= expiryMs)]
  {
    hide CanonicalMessage, SignatureValid, Mint, Run;
    var pk := w.witnesses[n].attestedValue;
    var receipt := Receipt(scheme, pk, CanonicalMessage(id, domain, actionHash, expiryMs));
    var x, y := New(sender, n, scheme, pk, id), IssueReceipt(receipt);
    var z := VerifyAction(sender, id, |w.history| + 1, domain, actionHash, expiryMs);
    RunTwo(env, w, x, y);
    RunConcat(env, w, [x, y], [z]);
    RunOne(env, Run(env, w, [x, y]).value, z);
    assert forall x: Entry, y: Entry, z: Entry :: w.history + [x] + [y] + [z] == w.history + [x, y, z];
  }

  /** A foreign source binds any key without a document, and under every scheme signatures of it are accepted. */
  lemma ForeignSourceAccepts(env: Env, w: World, sender: Address, issued: Witness, scheme: Scheme, id: Id,
                             domain: bytes, actionHash: bytes, expiryMs: u64, signature: bytes)
    requires issued.source.ForeignSource? && id !in w.bindings && id !in w.destroyed
    requires SignatureValid(env, scheme, issued.attestedValue,
                            CanonicalMessage(id, domain, actionHash, expiryMs), signature)
    ensures var pk, n := issued.attestedValue, |w.history|;
            var message := CanonicalMessage(id, domain, actionHash, expiryMs);
            var r := Run(env, w, [IssueWitness(issued), New(sender, n, scheme, pk, id)]
                                 + [SchemeVerify(scheme, pk, message, signature),
                                    VerifyAction(sender, id, n + 2, domain, actionHash, expiryMs)]);
            && r.Some?
            && r.value.history
               == w.history
                + [WitnessIssued(w.clock, issued), Bound(w.clock, id, issued.source, scheme, pk, n, sender),
                   SignatureChecked(w.clock, scheme, pk, message, signature),
                   ActionChecked(w.clock, id, n + 2, domain, actionHash, expiryMs, w.clock <= expiryMs)]
  {
    hide CanonicalMessage, SignatureValid, Mint, Run;
    var pk, n := issued.attestedValue, |w.history|;
    var message := CanonicalMessage(id, domain, actionHash, expiryMs);
    var x, y := IssueWitness(issued), New(sender, n, scheme, pk, id);
    RunTwo(env, w, x, y);
    var v := Run(env, w, [x, y]).value;
    assert v.history
        == w.history + [WitnessIssued(w.clock, issued), Bound(w.clock, id, issued.source, scheme, pk, n, sender)];
    RunConcat(env, w, [x, y], Present(v, sender, id, message, signature, domain, actionHash, expiryMs));
    ValidSignatureAccepted(env, v, sender, id, message, signature, domain, actionHash, expiryMs);
  }

  /** The history of a witness, a binding and a receipt that foreign packages issue between them. */
  lemma ForeignRun(env: Env, clock: u64, initial: Pcrs, source: Source, scheme: Scheme) returns (h: seq<Entry>)
    requires source.ForeignSource? && scheme.ForeignScheme?
    ensures Reached(env, clock, initial, h) && AcceptedOn(h, 3, 1)
    ensures h[1].source == source && h[1].scheme == scheme
    ensures forall e | e in h :: !e.Attested? && !e.SignatureChecked?
  {
    hide CanonicalMessage, SignatureValid, Mint, Run;
    var w, id, issued := Init(clock, initial), Zeros(32), Witness(source, [], [], 0, []);
    RunOne(env, w, IssueWitness(issued));
    var v := Run(env, w, [IssueWitness(issued)]).value;
    ForeignSchemeAccepts(env, v, 0, 0, scheme, id, [], [], clock);
    var rest := [New(0, 0, scheme, [], id), IssueReceipt(Receipt(scheme, [], CanonicalMessage(id, [], [], clock)))]
             + [VerifyAction(0, id, 2, [], [], clock)];
    RunConcat(env, w, [IssueWitness(issued)], rest);
    h := Run(env, v, rest).value.history;
    assert Run(env, w, [IssueWitness(issued)] + rest).value.history == h;
  }

  ghost predicate Signable(env: Env, scheme: Scheme, pk: bytes, message: bytes) {
    exists signature :: SignatureValid(env, scheme, pk, message, signature)
  }

  /** The key can get some action accepted: it can sign a canonical message, or its receipts are issued unchecked. */
  ghost predicate CanAct(env: Env, scheme: Scheme, pk: bytes) {
    || scheme.ForeignScheme?
    || exists id: Id, domain: bytes, actionHash: bytes, expiryMs: u64 ::
         Signable(env, scheme, pk, CanonicalMessage(id, domain, actionHash, expiryMs))
  }

  /** Whoever has a witness for such a key, in a world without bindings, gets an action on its binding accepted. */
  lemma WitnessActs(env: Env, w: World, scheme: Scheme) returns (actions: seq<Action>)
    requires 0 in w.witnesses && w.bindings == map[] && w.destroyed == {} && w.clock == 0 && |w.history| == 1
    requires CanAct(env, scheme, w.witnesses[0].attestedValue)
    ensures Run(env, w, actions).Some?
    ensures var h := Run(env, w, actions).value.history;
            && |h| == 4 && h[0] == w.history[0] && !h[2].Attested? && AcceptedOn(h, 3, 1)
            && h[1].source == w.witnesses[0].source && h[1].scheme == scheme && h[1].pk == w.witnesses[0].attestedValue
  {
    hide CanonicalMessage, SignatureValid, Run, Mint;
    var pk := w.witnesses[0].attestedValue;
    if scheme.ForeignScheme? {
      var id: Id := Zeros(32);
      ForeignSchemeAccepts(env, w, 0, 0, scheme, id, [], [], 0);
      actions := [New(0, 0, scheme, pk, id), IssueReceipt(Receipt(scheme, pk, CanonicalMessage(id, [], [], 0)))]
              + [VerifyAction(0, id, |w.history| + 1, [], [], 0)];
    } else {
      var id: Id, domain: bytes, actionHash: bytes, expiryMs: u64 :|
        Signable(env, scheme, pk, CanonicalMessage(id, domain, actionHash, expiryMs));
      var message := CanonicalMessage(id, domain, actionHash, expiryMs);
      var signature :| SignatureValid(env, scheme, pk, message, signature);
      var bind := New(0, 0, scheme, pk, id);
      RunOne(env, w, bind);
      var v := Run(env, w, [bind]).value;
      ValidSignatureAccepted(env, v, 0, id, message, signature, domain, actionHash, expiryMs);
      RunConcat(env, w, [bind], Present(v, 0, id, message, signature, domain, actionHash, expiryMs));
      actions := [bind] + Present(v, 0, id, message, signature, domain, actionHash, expiryMs);
    }
  }

  /** And only such keys do. */
  lemma AcceptedActed(env: Env, clock: u64, initial: Pcrs, h: seq<Entry>, j: nat, b: nat)
    requires Reached(env, clock, initial, h) && AcceptedOn(h, j, b)
    ensures CanAct(env, h[b].scheme, h[b].pk)
  {
    hide Reached, Genuine, CanonicalMessage, SignatureValid;
    AcceptedActionsAuthorized(env, clock, initial, h, j);
    var k: nat, c: nat, s: nat :| Authorized(env, initial, h, j, k, c, s);
    OneBinding(env, clock, initial, h, j, b, c);
    if !h[b].scheme.ForeignScheme? {
      assert SignatureValid(env, h[b].scheme, h[b].pk, MessageOf(h[j]), h[s].signature);
      assert Signable(env, h[b].scheme, h[b].pk, MessageOf(h[j]));
    }
  }

  lemma NotGenuine(env: Env, initial: Pcrs, h: seq<Entry>, k: nat, source: Source, pk: bytes)
    requires k < |h| && !h[k].Attested?
    ensures !Genuine(env, initial, h, k, source, pk)
  {
  }

  /** There is an accepted document behind a binding exactly when its source is one of the repository's own. */
  lemma SourceShowsDocumentExactly(env: Env, clock: u64, initial: Pcrs, source: Source)
    ensures SourceShowsDocument(env, clock, initial, source) <==> !source.ForeignSource?
  {
    hide Reached, Genuine, Signed, CanonicalMessage;
    if source.ForeignSource? {
      var h := ForeignRun(env, clock, initial, source, ForeignScheme([]));
      forall k: nat | k < 1 ensures !Genuine(env, initial, h, k, source, h[1].pk) {
        NotGenuine(env, initial, h, k, source, h[1].pk);
      }
    } else {
      forall h: seq<Entry>, j: nat, b: nat |
        Reached(env, clock, initial, h) && AcceptedOn(h, j, b) && h[b].source == source
        ensures exists k: nat :: k < b && Genuine(env, initial, h, k, source, h[b].pk)
      {
        AcceptedActionsAuthorized(env, clock, initial, h, j);
        var k: nat, c: nat, s: nat :| Authorized(env, initial, h, j, k, c, s);
        OneBinding(env, clock, initial, h, j, b, c);
      }
    }
  }

  lemma NotSigned(env: Env, h: seq<Entry>, s: nat, scheme: Scheme, pk: bytes, message: bytes)
    requires s < |h| && !h[s].SignatureChecked?
    ensures !Signed(env, h, s, scheme, pk, message)
  {
  }

  /** There is a checked signature behind an accepted action exactly when the scheme is one of the repository's own. */
  lemma SchemeShowsSignatureExactly(env: Env, clock: u64, initial: Pcrs, scheme: Scheme)
    ensures SchemeShowsSignature(env, clock, initial, scheme) <==> !scheme.ForeignScheme?
  {
    hide Reached, Genuine, Signed, CanonicalMessage;
    if scheme.ForeignScheme? {
      var h := ForeignRun(env, clock, initial, ForeignSource([]), scheme);
      forall s: nat | s < 3 ensures !Signed(env, h, s, scheme, h[1].pk, MessageOf(h[3])) {
        NotSigned(env, h, s, scheme, h[1].pk, MessageOf(h[3]));
      }
    } else {
      forall h: seq<Entry>, j: nat, b: nat |
        Reached(env, clock, initial, h) && AcceptedOn(h, j, b) && h[b].scheme == scheme
        ensures exists s: nat :: s < j && Signed(env, h, s, scheme, h[b].pk, MessageOf(h[j]))
      {
        AcceptedActionsAuthorized(env, clock, initial, h, j);
        var k: nat, c: nat, s: nat :| Authorized(env, initial, h, j, k, c, s);
        OneBinding(env, clock, initial, h, j, b, c);
      }
    }
  }

  // The life cycle of bindings.

  /** Later worlds keep destroyed ids destroyed, and live bindings unchanged until they are destroyed. */
  ghost predicate Continues(w: World, v: World) {
    && w.destroyed <= v.destroyed && w.clock <= v.clock && w.history <= v.history
    && forall id | id in w.bindings ::
         (id in v.bindings && SameDevice(w.bindings[id], v.bindings[id])) || id in v.destroyed
  }

  lemma StepContinues(env: Env, w: World, a: Action)
    requires Step(env, w, a).Some?
    ensures Continues(w, Step(env, w, a).value)
  {
    hide Mint, CanonicalMessage, SignatureValid, Authorizes, Takes;
    StepHistory(env, w, a);
  }

  lemma {:induction false} RunContinues(env: Env, w: World, actions: seq<Action>)
    requires Invariant(env, w) && Run(env, w, actions).Some?
    ensures Continues(w, Run(env, w, actions).value)
  {
    hide Step, HistorySound, InOrder, Outstanding, UsedOnce, ActionsBacked;
    if actions == [] {
    } else {
      var n := |actions| - 1;
      RunContinues(env, w, actions[..n]);
      RunInvariant(env, w, actions);
      StepContinues(env, Run(env, w, actions[..n]).value, actions[n]);
    }
  }

  /**
   From any reachable world on: destroyed bindings never reappear, and a binding that is live later as
   well has kept its key, types and issue time.
   */
  lemma BindingLifeCycle(env: Env, w: World, actions: seq<Action>, id: Id)
    requires Invariant(env, w) && Run(env, w, actions).Some?
    ensures var v := Run(env, w, actions).value;
            && (id in w.destroyed ==> id in v.destroyed && id !in v.bindings)
            && (id in w.bindings && id in v.bindings ==> SameDevice(w.bindings[id], v.bindings[id]))
  {
    hide Run, HistorySound, InOrder, Outstanding, UsedOnce, ActionsBacked;
    RunInvariant(env, w, actions);
    RunContinues(env, w, actions);
  }

  // Who may act, and what is used up.

  /** Only the holder moves, uses or destroys a binding, and only with a receipt of its scheme that is still there. */
  lemma OnlyHoldersAct(env: Env, w: World, a: Action)
    requires Step(env, w, a).Some?
    ensures a.TransferTo? ==> a.id in w.bindings && w.bindings[a.id].holder == a.sender
    ensures a.Destroy? ==> a.id in w.bindings && w.bindings[a.id].holder == a.sender
    ensures a.VerifyAction? ==>
              && a.id in w.bindings && w.bindings[a.id].holder == a.sender
              && a.receipt in w.receipts && w.receipts[a.receipt].scheme == w.bindings[a.id].scheme
    ensures a.New? ==>
              && a.origin in w.witnesses && w.witnesses[a.origin].attestedValue == a.pk
              && a.id !in w.bindings && a.id !in w.destroyed
  {
    hide Mint, CanonicalMessage, SignatureValid, Authorizes, Takes;
  }

  /** The clock moves to where it is set, never back; a policy update pins what it says; what is dropped is gone. */
  lemma OtherSteps(env: Env, w: World, to: u64, newPinned: Pcrs, n: nat)
    ensures Step(env, w, AdvanceClock(to)).Some? <==> w.clock <= to
    ensures w.clock <= to ==> Step(env, w, AdvanceClock(to)).value == w.(clock := to)
    ensures Step(env, w, UpdatePolicy(newPinned)).Some?
    ensures Step(env, w, UpdatePolicy(newPinned)).value.pinned == newPinned
    ensures Step(env, w, Drop(n)).Some?
    ensures var v := Step(env, w, Drop(n)).value;
            n !in v.witnesses && n !in v.receipts && v.bindings == w.bindings && v.events == w.events
  {
  }

  /** Who was last given the binding: the sender who bound it, or the last recipient. */
  function LastGiven(h: seq<Entry>, id: Id): Option<Address> {
    if h == [] then None
    else match h[|h| - 1]
      case Bound(_, i, _, _, _, _, sender) => if i == id then Some(sender) else LastGiven(h[..|h| - 1], id)
      case Transferred(_, i, recipient) => if i == id then Some(recipient) else LastGiven(h[..|h| - 1], id)
      case _ => LastGiven(h[..|h| - 1], id)
  }

  ghost predicate HoldersRecorded(w: World) {
    forall id | id in w.bindings :: LastGiven(w.history, id) == Some(w.bindings[id].holder)
  }

  lemma StepHolders(env: Env, w: World, a: Action)
    requires HoldersRecorded(w) && Step(env, w, a).Some?
    ensures HoldersRecorded(Step(env, w, a).value)
  {
    hide Mint, CanonicalMessage, SignatureValid, Authorizes, Takes;
    var v := Step(env, w, a).value;
    if v.history != w.history {
      assert v.history[..|v.history| - 1] == w.history;
    }
  }

  /** In every run a live binding is held by whoever bound it, or else by the recipient of its last transfer. */
  lemma {:induction false} RunHolders(env: Env, clock: u64, pinned: Pcrs, actions: seq<Action>)
    requires Run(env, Init(clock, pinned), actions).Some?
    ensures HoldersRecorded(Run(env, Init(clock, pinned), actions).value)
  {
    hide Step;
    if actions == [] {
    } else {
      var n := |actions| - 1;
      RunHolders(env, clock, pinned, actions[..n]);
      StepHolders(env, Run(env, Init(clock, pinned), actions[..n]).value, actions[n]);
    }
  }

  /** A receipt is used for at most one action, and a used one is no longer there. */
  ghost predicate ReceiptsUsedOnce(w: World) {
    && (forall n | n in w.receipts :: n < |w.history|)
    && (forall j | 0 <= j < |w.history| && w.history[j].ActionChecked? ::
          w.history[j].receipt < j && w.history[j].receipt !in w.receipts)
    && (forall i, j | 0 <= i < j < |w.history| && w.history[i].ActionChecked? && w.history[j].ActionChecked? ::
          w.history[i].receipt != w.history[j].receipt)
  }

  lemma StepReceipts(env: Env, w: World, a: Action)
    requires ReceiptsUsedOnce(w) && Step(env, w, a).Some?
    ensures ReceiptsUsedOnce(Step(env, w, a).value)
  {
    hide Mint, CanonicalMessage, SignatureValid, Authorizes, Takes;
    StepHistory(env, w, a);
    var v := Step(env, w, a).value;
    forall j | 0 <= j < |w.history| ensures v.history[j] == w.history[j] {
      assert v.history[..|w.history|][j] == w.history[j];
    }
  }

  lemma {:induction false} RunReceipts(env: Env, clock: u64, pinned: Pcrs, actions: seq<Action>)
    requires Run(env, Init(clock, pinned), actions).Some?
    ensures ReceiptsUsedOnce(Run(env, Init(clock, pinned), actions).value)
  {
    hide Step;
    if actions == [] {
    } else {
      var n := |actions| - 1;
      RunReceipts(env, clock, pinned, actions[..n]);
      StepReceipts(env, Run(env, Init(clock, pinned), actions[..n]).value, actions[n]);
    }
  }

  /** The event that an entry calls for. */
  function EventOf(e: Entry): seq<Event> {
    match e
    case Bound(_, id, source, scheme, _, _, _) => [DeviceBound(id, source, scheme)]
    case Destroyed(_, id) => [DeviceBindingDestroyed(id)]
    case _ => []
  }

  function EventsOf(h: seq<Entry>): seq<Event> {
    if h == [] then [] else EventsOf(h[..|h| - 1]) + EventOf(h[|h| - 1])
  }

  lemma StepEvent(env: Env, w: World, a: Action)
    requires Step(env, w, a).Some?
    ensures var v := Step(env, w, a).value;
            v.events == w.events + if |v.history| > |w.history| then EventOf(v.history[|w.history|]) else []
  {
    hide Mint, CanonicalMessage, SignatureValid, Authorizes, Takes;
  }

  lemma StepEvents(env: Env, w: World, a: Action)
    requires w.events == EventsOf(w.history) && Step(env, w, a).Some?
    ensures Step(env, w, a).value.events == EventsOf(Step(env, w, a).value.history)
  {
    hide Step, EventOf;
    StepHistory(env, w, a);
    StepEvent(env, w, a);
    var v := Step(env, w, a).value;
    if v.history != w.history {
      assert v.history[..|v.history| - 1] == w.history;
    }
  }

  /** In every run the events are those of the bindings made and destroyed, with their ids and types, in order. */
  lemma {:induction false} RunEvents(env: Env, clock: u64, pinned: Pcrs, actions: seq<Action>)
    requires Run(env, Init(clock, pinned), actions).Some?
    ensures var w := Run(env, Init(clock, pinned), actions).value;
            w.events == EventsOf(w.history)
  {
    hide Step;
    if actions == [] {
    } else {
      var n := |actions| - 1;
      RunEvents(env, clock, pinned, actions[..n]);
      StepEvents(env, Run(env, Init(clock, pinned), actions[..n]).value, actions[n]);
    }
  }

  // Conservation.

  /** Witnesses ever minted, by the attestation packages or by others. */
  function MintedCount(h: seq<Entry>): nat {
    if h == [] then 0 else MintedCount(h[..|h| - 1]) + if MintedFor(h[|h| - 1]).Some? then 1 else 0
  }

  function BoundCount(h: seq<Entry>): nat {
    if h == [] then 0 else BoundCount(h[..|h| - 1]) + if h[|h| - 1].Bound? then 1 else 0
  }

  function BoundEvents(es: seq<Event>): nat {
    if es == [] then 0 else BoundEvents(es[..|es| - 1]) + if es[|es| - 1].DeviceBound? then 1 else 0
  }

  function DestroyedEvents(es: seq<Event>): nat {
    if es == [] then 0 else DestroyedEvents(es[..|es| - 1]) + if es[|es| - 1].DeviceBindingDestroyed? then 1 else 0
  }

  /** Witnesses ever minted cover those outstanding and those bound; bound events are live plus destroyed. */
  predicate Balanced(w: World) {
    && (forall n | n in w.witnesses :: n < |w.history|)
    && w.bindings.Keys !! w.destroyed
    && BoundCount(w.history) + |w.witnesses| <= MintedCount(w.history)
    && BoundEvents(w.events) == BoundCount(w.history)
    && BoundEvents(w.events) == |w.bindings| + DestroyedEvents(w.events)
    && DestroyedEvents(w.events) == |w.destroyed|
  }

  lemma CountsSnoc(h: seq<Entry>, e: Entry)
    ensures MintedCount(h + [e]) == MintedCount(h) + if MintedFor(e).Some? then 1 else 0
    ensures BoundCount(h + [e]) == BoundCount(h) + if e.Bound? then 1 else 0
  {
    assert (h + [e])[..|h|] == h;
  }

  lemma EventsSnoc(es: seq<Event>, e: Event)
    ensures BoundEvents(es + [e]) == BoundEvents(es) + if e.DeviceBound? then 1 else 0
    ensures DestroyedEvents(es + [e]) == DestroyedEvents(es) + if e.DeviceBound? then 0 else 1
  {
    assert (es + [e])[..|es|] == es;
  }

  lemma RemoveOne<K, T>(m: map<K, T>, n: K)
    ensures |m - {n}| == if n in m then |m| - 1 else |m|
  {
    assert (m - {n}).Keys == m.Keys - {n};
  }

  lemma AddOne<K, T>(m: map<K, T>, n: K, x: T)
    requires n !in m
    ensures |m[n := x]| == |m| + 1
  {
    assert m[n := x].Keys == m.Keys + {n};
  }

  lemma NewBalanced(env: Env, w: World, a: Action)
    requires a.New? && Balanced(w) && Step(env, w, a).Some?
    ensures Balanced(Step(env, w, a).value)
  {
    hide MintedCount, BoundCount, BoundEvents, DestroyedEvents;
    var v := Step(env, w, a).value;
    CountsSnoc(w.history, v.history[|w.history|]);
    EventsSnoc(w.events, v.events[|w.events|]);
    RemoveOne(w.witnesses, a.origin);
    AddOne(w.bindings, a.id, v.bindings[a.id]);
  }

  lemma DestroyBalanced(env: Env, w: World, a: Action)
    requires a.Destroy? && Balanced(w) && Step(env, w, a).Some?
    ensures Balanced(Step(env, w, a).value)
  {
    hide MintedCount, BoundCount, BoundEvents, DestroyedEvents;
    var v := Step(env, w, a).value;
    CountsSnoc(w.history, v.history[|w.history|]);
    EventsSnoc(w.events, v.events[|w.events|]);
    RemoveOne(w.bindings, a.id);
  }

  lemma MintBalanced(env: Env, w: World, a: Action)
    requires (a.AttestVerify? || a.IssueWitness?) && Balanced(w) && Step(env, w, a).Some?
    ensures Balanced(Step(env, w, a).value)
  {
    hide Mint, Takes, MintedCount, BoundCount, BoundEvents, DestroyedEvents;
    var v := Step(env, w, a).value;
    CountsSnoc(w.history, v.history[|w.history|]);
    AddOne(w.witnesses, |w.history|, v.witnesses[|w.history|]);
  }

  lemma DropBalanced(env: Env, w: World, a: Action)
    requires a.Drop? && Balanced(w) && Step(env, w, a).Some?
    ensures Balanced(Step(env, w, a).value)
  {
    hide MintedCount, BoundCount, BoundEvents, DestroyedEvents;
    CountsSnoc(w.history, Dropped(w.clock, a.place));
    RemoveOne(w.witnesses, a.place);
  }

  lemma OtherKeeps(env: Env, w: World, a: Action)
    requires !a.New? && !a.Destroy? && !a.AttestVerify? && !a.IssueWitness? && !a.Drop? && Step(env, w, a).Some?
    ensures var v := Step(env, w, a).value;
            && v.witnesses == w.witnesses && v.bindings.Keys == w.bindings.Keys
            && v.destroyed == w.destroyed && v.events == w.events
            && (v.history == w.history
                || exists e: Entry :: v.history == w.history + [e] && MintedFor(e).None? && !e.Bound?)
  {
    hide CanonicalMessage, SignatureValid, Authorizes;
    var v := Step(env, w, a).value;
    if !a.AdvanceClock? {
      var e := v.history[|w.history|];
      assert v.history == w.history + [e];
    }
  }

  lemma SameBalance(w: World, v: World)
    requires Balanced(w)
    requires v.witnesses == w.witnesses && v.bindings.Keys == w.bindings.Keys
    requires v.destroyed == w.destroyed && v.events == w.events && |w.history| <= |v.history|
    requires BoundCount(v.history) == BoundCount(w.history) && MintedCount(v.history) == MintedCount(w.history)
    ensures Balanced(v)
  {
    hide MintedCount, BoundCount, BoundEvents, DestroyedEvents;
    assert |v.bindings| == |v.bindings.Keys| && |w.bindings| == |w.bindings.Keys|;
  }

  /** The remaining steps leave witnesses, ids and events alone. */
  lemma OtherBalanced(env: Env, w: World, a: Action)
    requires !a.New? && !a.Destroy? && !a.AttestVerify? && !a.IssueWitness? && !a.Drop?
    requires Balanced(w) && Step(env, w, a).Some?
    ensures Balanced(Step(env, w, a).value)
  {
    hide MintedCount, BoundCount, BoundEvents, DestroyedEvents, Balanced;
    var v := Step(env, w, a).value;
    OtherKeeps(env, w, a);
    if v.history != w.history {
      CountsSnoc(w.history, v.history[|w.history|]);
    }
    SameBalance(w, v);
  }

  lemma StepBalanced(env: Env, w: World, a: Action)
    requires Balanced(w) && Step(env, w, a).Some?
    ensures Balanced(Step(env, w, a).value)
  {
    hide Step, Balanced;
    if a.New? {
      NewBalanced(env, w, a);
    } else if a.Destroy? {
      DestroyBalanced(env, w, a);
    } else if a.AttestVerify? || a.IssueWitness? {
      MintBalanced(env, w, a);
    } else if a.Drop? {
      DropBalanced(env, w, a);
    } else {
      OtherBalanced(env, w, a);
    }
  }

  /** Over all runs: bindings minted never exceed witnesses minted, and events account for every binding. */
  lemma {:induction false} RunBalanced(env: Env, clock: u64, pinned: Pcrs, actions: seq<Action>)
    requires Run(env, Init(clock, pinned), actions).Some?
    ensures Balanced(Run(env, Init(clock, pinned), actions).value)
  {
    hide Step;
    if actions == [] {
    } else {
      var n := |actions| - 1;
      RunBalanced(env, clock, pinned, actions[..n]);
      StepBalanced(env, Run(env, Init(clock, pinned), actions[..n]).value, actions[n]);
    }
  }

  // Receipts.

  /** Under domains of one length a receipt authorizes one action of one binding only. */
  lemma ReceiptScoped(r: Receipt, i1: Id, b1: Binding, d1: bytes, a1: bytes, e1: u64, now1: u64,
                      i2: Id, b2: Binding, d2: bytes, a2: bytes, e2: u64, now2: u64)
    requires |d1| == |d2|
    requires Authorizes(i1, b1, r, d1, a1, e1, now1) && Authorizes(i2, b2, r, d2, a2, e2, now2)
    ensures i1 == i2 && d1 == d2 && a1 == a2 && e1 == e2 && b1.pk == b2.pk
  {
    hide CanonicalMessage;
    MessageSeparates(i1, d1, a1, e1, i2, d2, a2, e2);
  }

  predicate AcceptedLast(h: seq<Entry>) {
    h != [] && h[|h| - 1].ActionChecked? && h[|h| - 1].result
  }

  /** The actions of two bindings are both accepted now, on one signature presented twice. */
  ghost predicate ServesBoth(env: Env, w: World, sender: Address, i1: Id, i2: Id, message: bytes, signature: bytes,
                             d1: bytes, a1: bytes, d2: bytes, a2: bytes, expiryMs: u64)
    requires i1 in w.bindings && i2 in w.bindings
  {
    var first := Run(env, w, Present(w, sender, i1, message, signature, d1, a1, expiryMs));
    && first.Some? && AcceptedLast(first.value.history)
    && i2 in first.value.bindings
    && var second := Run(env, first.value, Present(first.value, sender, i2, message, signature, d2, a2, expiryMs));
    && second.Some? && AcceptedLast(second.value.history)
  }

  /** Some signature of the key that two bindings share serves actions of both, under domains of these lengths. */
  ghost predicate OneSignatureServesBoth(env: Env, w: World, sender: Address, i1: Id, m: nat, i2: Id, n: nat)
    requires Holds(w, sender, i1) && Holds(w, sender, i2)
  {
    exists message: bytes, signature: bytes, d1: bytes, a1: bytes, d2: bytes, a2: bytes, expiryMs: u64 ::
      |d1| == m && |d2| == n && ServesBoth(env, w, sender, i1, i2, message, signature, d1, a1, d2, a2, expiryMs)
  }

  lemma ServesBothExactly(env: Env, w: World, sender: Address, i1: Id, i2: Id, message: bytes, signature: bytes,
                          d1: bytes, a1: bytes, d2: bytes, a2: bytes, expiryMs: u64)
    requires Holds(w, sender, i1) && Holds(w, sender, i2)
    requires w.bindings[i1].scheme == w.bindings[i2].scheme && w.bindings[i1].pk == w.bindings[i2].pk
    ensures ServesBoth(env, w, sender, i1, i2, message, signature, d1, a1, d2, a2, expiryMs)
            <==> SignatureValid(env, w.bindings[i1].scheme, w.bindings[i1].pk, message, signature)
                 && w.clock <= expiryMs && message == CanonicalMessage(i1, d1, a1, expiryMs)
                 && message == CanonicalMessage(i2, d2, a2, expiryMs)
  {
    hide CanonicalMessage, SignatureValid, Run, Present;
    ValidSignatureAccepted(env, w, sender, i1, message, signature, d1, a1, expiryMs);
    var first := Run(env, w, Present(w, sender, i1, message, signature, d1, a1, expiryMs));
    if first.Some? {
      ValidSignatureAccepted(env, first.value, sender, i2, message, signature, d2, a2, expiryMs);
    }
  }

  /**
   In any world, for two bindings of one key and scheme whose device can sign: one signature serves actions
   of both exactly when their ids overlay at the lengths of the two domains.
   */
  lemma ReceiptCrosses(env: Env, w: World, sender: Address, i1: Id, m: nat, i2: Id, n: nat)
    requires Holds(w, sender, i1) && Holds(w, sender, i2)
    requires w.bindings[i1].scheme == w.bindings[i2].scheme && w.bindings[i1].pk == w.bindings[i2].pk
    requires forall message: bytes :: Signable(env, w.bindings[i1].scheme, w.bindings[i1].pk, message)
    ensures OneSignatureServesBoth(env, w, sender, i1, m, i2, n) <==> Overlay(i1, m, i2, n)
  {
    hide CanonicalMessage, SignatureValid, Overlay, ServesBoth;
    if OneSignatureServesBoth(env, w, sender, i1, m, i2, n) {
      var message: bytes, signature: bytes, d1: bytes, a1: bytes, d2: bytes, a2: bytes, expiryMs: u64 :|
        |d1| == m && |d2| == n && ServesBoth(env, w, sender, i1, i2, message, signature, d1, a1, d2, a2, expiryMs);
      ServesBothExactly(env, w, sender, i1, i2, message, signature, d1, a1, d2, a2, expiryMs);
      ClashExactly(i1, m, i2, n);
    }
    if Overlay(i1, m, i2, n) {
      var d1, a1, d2, a2 := ClashMessages(i1, m, i2, n, w.clock);
      var message := CanonicalMessage(i1, d1, a1, w.clock);
      assert Signable(env, w.bindings[i1].scheme, w.bindings[i1].pk, message);
      var signature :| SignatureValid(env, w.bindings[i1].scheme, w.bindings[i1].pk, message, signature);
      ServesBothExactly(env, w, sender, i1, i2, message, signature, d1, a1, d2, a2, w.clock);
    }
  }
}
