/**
 The ledger as a mutable object: the Move entry points update it in place, one step each, so that every
 sequence of calls is a run of `Ledger` and what is proved of runs holds of the object.
 */
module LedgerStore {
  import opened Bytes
  import opened Bcs
  import opened Nitro
  import opened ActionMessages
  import opened Ledger
  import Compression

  class Store {
    const env: Env
    const startMs: u64
    const initial: Pcrs
    var clock: u64
    var pinned: Pcrs
    var witnesses: map<nat, Witness>
    var receipts: map<nat, Receipt>
    var bindings: map<Id, Binding>
    var destroyed: set<Id>
    var events: seq<Event>
    /** Place of the next entry in the history, which is kept for specification only. */
    var next: nat
    ghost var history: seq<Entry>
    /** The calls so far that did not abort. */
    ghost var calls: seq<Action>

    ghost function State(): World
      reads this
    {
      World(clock, pinned, witnesses, receipts, bindings, destroyed, events, history)
    }

    /** The store is where those calls lead. */
    ghost predicate Valid()
      reads this
    {
      next == |history| && Run(env, Init(startMs, initial), calls) == Some(State())
    }

    constructor (env: Env, clock: u64, pinned: Pcrs)
      ensures Valid() && State() == Init(clock, pinned) && this.env == env
    {
      this.env, this.startMs, this.initial, this.clock, this.pinned := env, clock, pinned, clock, pinned;
      witnesses, receipts, bindings, destroyed, events := map[], map[], map[], {}, [];
      next, history, calls := 0, [], [];
    }

    /** Every call keeps the invariant of the protocol, and its history is reachable. */
    lemma StoreInvariant()
      requires Valid()
      ensures Invariant(env, State()) && Reached(env, startMs, initial, history)
    {
      hide Run, Invariant;
      InitInvariant(env, startMs, initial);
      RunInvariant(env, Init(startMs, initial), calls);
    }

    /** Whatever calls are made, an accepted action is authorized as far as the types of its binding go. */
    lemma StoreActionsAuthorized(j: nat)
      requires Valid() && j < |history| && history[j].ActionChecked? && history[j].result
      ensures exists k: nat, b: nat, s: nat :: Authorized(env, initial, history, j, k, b, s)
    {
      hide Run, Invariant, Reached, Authorized;
      StoreInvariant();
      AcceptedActionsAuthorized(env, startMs, initial, history, j);
    }

    /** The three `verify` functions of the attestation packages: a new witness, or an abort. */
    method AttestVerify(source: Source, doc: Document, payload: Payload) returns (place: Option<nat>)
      requires Valid() && Takes(source, payload)
      modifies this
      ensures Valid()
      ensures match Step(env, old(State()), Action.AttestVerify(source, doc, payload))
              case None => place == None && State() == old(State())
              case Some(w) => place == Some(|old(history)|) && State() == w
    {
      hide Mint, Run;
      var minted := Nitro.Verify(env.sha256, source, pinned, doc, payload, clock);
      if minted.None? {
        return None;
      }
      witnesses := witnesses[next := minted.value];
      history := history + [Attested(clock, source, pinned, doc, payload)];
      RunOn(env, Init(startMs, initial), calls, Action.AttestVerify(source, doc, payload));
      calls := calls + [Action.AttestVerify(source, doc, payload)];
      place, next := Some(next), next + 1;
    }

    /** `verify` of a signature scheme's package: a receipt for a checked signature, or an abort. */
    method SchemeVerify(scheme: Scheme, pk: bytes, message: bytes, signature: bytes) returns (place: Option<nat>)
      requires Valid() && !scheme.ForeignScheme?
      modifies this
      ensures Valid()
      ensures match Step(env, old(State()), Action.SchemeVerify(scheme, pk, message, signature))
              case None => place == None && State() == old(State())
              case Some(w) => place == Some(|old(history)|) && State() == w
    {
      hide Run;
      var key := Some(pk);
      if scheme != Ed25519 {
        key := Compression.Compress(pk);
      }
      if key.None? || !env.native(scheme, key.value, message, signature) {
        return None;
      }
      receipts := receipts[next := Receipt(scheme, pk, message)];
      history := history + [SignatureChecked(clock, scheme, pk, message, signature)];
      RunOn(env, Init(startMs, initial), calls, Action.SchemeVerify(scheme, pk, message, signature));
      calls := calls + [Action.SchemeVerify(scheme, pk, message, signature)];
      place, next := Some(next), next + 1;
    }

    /** `witness::new`, called by another package for its own marker. */
    method IssueWitness(issued: Witness) returns (place: nat)
      requires Valid() && issued.source.ForeignSource?
      modifies this
      ensures Valid() && place == |old(history)|
      ensures Some(State()) == Step(env, old(State()), Action.IssueWitness(issued))
    {
      hide Run;
      witnesses := witnesses[next := issued];
      history := history + [WitnessIssued(clock, issued)];
      RunOn(env, Init(startMs, initial), calls, Action.IssueWitness(issued));
      calls := calls + [Action.IssueWitness(issued)];
      place, next := next, next + 1;
    }

    /** `verified`, called by another package for its own marker. */
    method IssueReceipt(issued: Receipt) returns (place: nat)
      requires Valid() && issued.scheme.ForeignScheme?
      modifies this
      ensures Valid() && place == |old(history)|
      ensures Some(State()) == Step(env, old(State()), Action.IssueReceipt(issued))
    {
      hide Run;
      receipts := receipts[next := issued];
      history := history + [ReceiptIssued(clock, issued)];
      RunOn(env, Init(startMs, initial), calls, Action.IssueReceipt(issued));
      calls := calls + [Action.IssueReceipt(issued)];
      place, next := next, next + 1;
    }

    /** `new`: uses up a witness and binds its key under a fresh object id. */
    method New(sender: Address, origin: nat, scheme: Scheme, pk: bytes, id: Id) returns (ok: bool)
      requires Valid() && origin in witnesses
      requires id !in bindings && id !in destroyed
      modifies this
      ensures Valid()
      ensures match Step(env, old(State()), Action.New(sender, origin, scheme, pk, id))
              case None => !ok && State() == old(State())
              case Some(w) => ok && State() == w
    {
      hide Run;
      var attestation := witnesses[origin];
      if pk != attestation.attestedValue {
        return false;
      }
      witnesses := witnesses - {origin};
      bindings := bindings[id := Binding(attestation.source, scheme, pk, clock, sender)];
      events := events + [DeviceBound(id, attestation.source, scheme)];
      history := history + [Bound(clock, id, attestation.source, scheme, pk, origin, sender)];
      RunOn(env, Init(startMs, initial), calls, Action.New(sender, origin, scheme, pk, id));
      calls := calls + [Action.New(sender, origin, scheme, pk, id)];
      next := next + 1;
      return true;
    }

    /** `transfer_to`: the binding has a new holder and nothing else changes. */
    method TransferTo(sender: Address, id: Id, recipient: Address)
      requires Valid() && Holds(State(), sender, id)
      modifies this
      ensures Valid() && Some(State()) == Step(env, old(State()), Action.TransferTo(sender, id, recipient))
    {
      hide Run;
      bindings := bindings[id := bindings[id].(holder := recipient)];
      history := history + [Transferred(clock, id, recipient)];
      RunOn(env, Init(startMs, initial), calls, Action.TransferTo(sender, id, recipient));
      calls := calls + [Action.TransferTo(sender, id, recipient)];
      next := next + 1;
    }

    /** `verify_action`: uses up the receipt and says whether it authorizes this action now. */
    method VerifyAction(sender: Address, id: Id, receipt: nat, domain: bytes, actionHash: bytes, expiryMs: u64)
      returns (result: bool)
      requires Valid() && Holds(State(), sender, id)
      requires receipt in receipts && receipts[receipt].scheme == bindings[id].scheme
      modifies this
      ensures Valid()
      ensures Some(State())
           == Step(env, old(State()), Action.VerifyAction(sender, id, receipt, domain, actionHash, expiryMs))
      ensures result <==> Authorizes(id, old(bindings[id]), old(receipts[receipt]), domain, actionHash, expiryMs, clock)
    {
      hide CanonicalMessage, Run;
      var verified := receipts[receipt];
      receipts := receipts - {receipt};
      var message := BuildMessage(id, domain, actionHash, expiryMs);
      result := clock <= expiryMs && verified.pk == bindings[id].pk && verified.message == message;
      history := history + [ActionChecked(clock, id, receipt, domain, actionHash, expiryMs, result)];
      RunOn(env, Init(startMs, initial), calls, Action.VerifyAction(sender, id, receipt, domain, actionHash, expiryMs));
      calls := calls + [Action.VerifyAction(sender, id, receipt, domain, actionHash, expiryMs)];
      next := next + 1;
    }

    /** `destroy`: deletes the object for good. */
    method Destroy(sender: Address, id: Id)
      requires Valid() && Holds(State(), sender, id)
      modifies this
      ensures Valid() && Some(State()) == Step(env, old(State()), Action.Destroy(sender, id))
    {
      hide Run;
      bindings := bindings - {id};
      destroyed := destroyed + {id};
      events := events + [DeviceBindingDestroyed(id)];
      history := history + [Entry.Destroyed(clock, id)];
      RunOn(env, Init(startMs, initial), calls, Action.Destroy(sender, id));
      calls := calls + [Action.Destroy(sender, id)];
      next := next + 1;
    }

    /** A witness or receipt that goes out of scope. */
    method Discard(place: nat)
      requires Valid()
      modifies this
      ensures Valid() && Some(State()) == Step(env, old(State()), Action.Drop(place))
    {
      hide Run;
      witnesses, receipts := witnesses - {place}, receipts - {place};
      history := history + [Dropped(clock, place)];
      RunOn(env, Init(startMs, initial), calls, Action.Drop(place));
      calls := calls + [Action.Drop(place)];
      next := next + 1;
    }

    /** The clock object moves on. */
    method AdvanceClock(to: u64)
      requires Valid() && clock <= to
      modifies this
      ensures Valid() && Some(State()) == Step(env, old(State()), Action.AdvanceClock(to))
    {
      hide Run;
      clock := to;
      RunOn(env, Init(startMs, initial), calls, Action.AdvanceClock(to));
      calls := calls + [Action.AdvanceClock(to)];
    }

    /** The enclave policy pins other measurements. */
    method UpdatePolicy(newPinned: Pcrs)
      requires Valid()
      modifies this
      ensures Valid() && Some(State()) == Step(env, old(State()), Action.UpdatePolicy(newPinned))
    {
      hide Run;
      pinned := newPinned;
      history := history + [PolicyUpdated(clock, newPinned)];
      RunOn(env, Init(startMs, initial), calls, Action.UpdatePolicy(newPinned));
      calls := calls + [Action.UpdatePolicy(newPinned)];
      next := next + 1;
    }
  }
}
