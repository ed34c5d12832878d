/** The lock-mint and burn-unlock bridge between TALANTON and DRACHMA. */
module BridgeModel {
  import opened Bytes
  import opened Decimals
  import opened Ordered
  import opened Sums

  const TALANTON: nat := 1001
  const DRACHMA: nat := 1002
  const MIN_L1_CONFIRMATIONS: nat := 6

  datatype BridgeResult =
    | OK | ErrInvalidProof | ErrReplay | ErrInsufficientConf | ErrAmountZero | ErrSupplyOverflow
    | ErrInvalidChain | ErrInsufficientSignatures

  datatype Signature = Signature(key: Bytes, bytes: Bytes)

  datatype Message = Message(
    origin: nat, destination: nat, nonce: uint64, payloadHash: Digest, payload: Bytes,
    stateRoot: Digest, proof: seq<Bytes>, signatures: seq<Signature>)

  datatype Intent = Intent(origin: nat, destination: nat, sender: string, amount: uint64, nonce: uint64)

  datatype Bridge = Bridge(keys: set<string>, locked: nat, minted: nat, trusted: set<Bytes>, minimum: nat)

  /** The hash and the signature check stay uninterpreted. */
  datatype Crypto = Crypto(h: Hash, check: (Bytes, Digest, Bytes) -> bool)

  // ---------------------------------------------------------------- nonce keys

  function NonceKey(sender: string, nonce: nat): string {
    sender + ":" + Decimal(nonce)
  }

  /** Different pairs of sender and nonce have different keys, whatever the sender text. */
  lemma NonceKeyInjective(a: string, m: nat, b: string, n: nat)
    requires NonceKey(a, m) == NonceKey(b, n)
    ensures a == b && m == n
  {
    DecimalDigits(m);
    DecimalDigits(n);
    LastColon(a, Decimal(m), b, Decimal(n));
    SplitConcat(a + ":", Decimal(m), b + ":", Decimal(n));
    SplitConcat(a, ":", b, ":");
  }

  lemma LastColon(a: string, d: string, b: string, e: string)
    requires a + ":" + d == b + ":" + e
    requires forall i | 0 <= i < |d| :: IsDigit(d[i])
    requires forall i | 0 <= i < |e| :: IsDigit(e[i])
    ensures |d| == |e| && |a| == |b|
  {
    var s := a + ":" + d;
    assert s[|a|] == ':' && s[|b|] == ':';
    assert forall i | |a| < i < |s| :: s[i] == d[i - |a| - 1];
    assert forall i | |b| < i < |s| :: s[i] == e[i - |b| - 1];
  }

  // ---------------------------------------------------------------- message checks

  /** What the validators sign the hash of: chains, nonce, payload hash and state root. */
  function SignedBytes(m: Message): Bytes {
    LittleEndian(m.origin % 0x1_0000_0000, 4) + LittleEndian(m.destination % 0x1_0000_0000, 4)
    + LittleEndian(m.nonce, 8) + m.payloadHash + m.stateRoot
  }

  function Commitment(c: Crypto, m: Message): Digest {
    c.h(SignedBytes(m))
  }

  /** Valid signatures by trusted keys, each listing counted, in a 32-bit counter. The first byte of a
      listed key is its compression prefix. */
  function ValidCount(c: Crypto, trusted: set<Bytes>, commit: Digest, sigs: seq<Signature>): nat {
    if sigs == [] then 0
    else
      var init, last := ValidCount(c, trusted, commit, sigs[..|sigs| - 1]), sigs[|sigs| - 1];
      if Counts(c, trusted, commit, last) then (init + 1) % 0x1_0000_0000 else init
  }

  predicate Counts(c: Crypto, trusted: set<Bytes>, commit: Digest, s: Signature) {
    s.key != [] && s.key[1..] in trusted && c.check(s.key[1..], commit, s.bytes)
  }

  predicate QuorumMet(c: Crypto, b: Bridge, m: Message) {
    ValidCount(c, b.trusted, Commitment(c, m), m.signatures) >= b.minimum
  }

  // ---------------------------------------------------------------- what a met quorum means

  /** The listings that count, before the counter wraps. */
  function Listings(c: Crypto, trusted: set<Bytes>, commit: Digest, sigs: seq<Signature>): nat {
    if sigs == [] then 0
    else
      Listings(c, trusted, commit, sigs[..|sigs| - 1])
      + if Counts(c, trusted, commit, sigs[|sigs| - 1]) then 1 else 0
  }

  /** The trusted keys behind the listings that count. */
  function CountingKeys(c: Crypto, trusted: set<Bytes>, commit: Digest, sigs: seq<Signature>): set<Bytes> {
    if sigs == [] then {}
    else
      CountingKeys(c, trusted, commit, sigs[..|sigs| - 1])
      + if Counts(c, trusted, commit, sigs[|sigs| - 1]) then {sigs[|sigs| - 1].key[1..]} else {}
  }

  predicate NoKeyTwice(c: Crypto, trusted: set<Bytes>, commit: Digest, sigs: seq<Signature>) {
    forall i, j | 0 <= i < j < |sigs| && Counts(c, trusted, commit, sigs[i]) && Counts(c, trusted, commit, sigs[j]) ::
      sigs[i].key[1..] != sigs[j].key[1..]
  }

  lemma {:induction false} CounterWraps(c: Crypto, trusted: set<Bytes>, commit: Digest, sigs: seq<Signature>)
    ensures Listings(c, trusted, commit, sigs) <= |sigs|
    ensures ValidCount(c, trusted, commit, sigs) == Listings(c, trusted, commit, sigs) % 0x1_0000_0000
    decreases |sigs|
  {
    if sigs != [] {
      CounterWraps(c, trusted, commit, sigs[..|sigs| - 1]);
    }
  }

  /** They are the trusted keys with a listing whose signature of the commitment checks. */
  lemma {:induction false} CountingKeyHasSignature(c: Crypto, trusted: set<Bytes>, commit: Digest, sigs: seq<Signature>,
                                                   key: Bytes)
    ensures key in CountingKeys(c, trusted, commit, sigs)
            <==> exists i :: 0 <= i < |sigs| && Counts(c, trusted, commit, sigs[i]) && sigs[i].key[1..] == key
    decreases |sigs|
  {
    if sigs != [] {
      var init, last := sigs[..|sigs| - 1], |sigs| - 1;
      CountingKeyHasSignature(c, trusted, commit, init, key);
      if key in CountingKeys(c, trusted, commit, init) {
        var i :| 0 <= i < |init| && Counts(c, trusted, commit, init[i]) && init[i].key[1..] == key;
        assert sigs[i] == init[i];
      }
      if i :| 0 <= i < |sigs| && Counts(c, trusted, commit, sigs[i]) && sigs[i].key[1..] == key {
        assert i == last || sigs[i] == init[i];
      }
    }
  }

  /** The count is the number of distinct trusted keys that signed if and only if none of them is listed
      twice; otherwise it is larger. */
  lemma {:induction false} CountsKeysExactly(c: Crypto, trusted: set<Bytes>, commit: Digest, sigs: seq<Signature>)
    ensures |CountingKeys(c, trusted, commit, sigs)| <= Listings(c, trusted, commit, sigs)
    ensures Listings(c, trusted, commit, sigs) == |CountingKeys(c, trusted, commit, sigs)|
            <==> NoKeyTwice(c, trusted, commit, sigs)
    decreases |sigs|
  {
    if sigs != [] {
      CountsKeysExactly(c, trusted, commit, sigs[..|sigs| - 1]);
      OneMoreCounted(c, trusted, commit, sigs, sigs[..|sigs| - 1], sigs[|sigs| - 1]);
    }
  }

  lemma OneMoreCounted(c: Crypto, trusted: set<Bytes>, commit: Digest, sigs: seq<Signature>, init: seq<Signature>,
                       last: Signature)
    requires sigs == init + [last]
    requires |CountingKeys(c, trusted, commit, init)| <= Listings(c, trusted, commit, init)
    requires Listings(c, trusted, commit, init) == |CountingKeys(c, trusted, commit, init)|
             <==> NoKeyTwice(c, trusted, commit, init)
    ensures |CountingKeys(c, trusted, commit, sigs)| <= Listings(c, trusted, commit, sigs)
    ensures Listings(c, trusted, commit, sigs) == |CountingKeys(c, trusted, commit, sigs)|
            <==> NoKeyTwice(c, trusted, commit, sigs)
  {
    LastListing(c, trusted, commit, sigs, init, last);
    OneMoreListing(c, trusted, commit, sigs, init, last);
    if Counts(c, trusted, commit, last) {
      CountingKeyHasSignature(c, trusted, commit, init, last.key[1..]);
      OneMoreKey(CountingKeys(c, trusted, commit, init), last.key[1..]);
    }
  }

  lemma LastListing(c: Crypto, trusted: set<Bytes>, commit: Digest, sigs: seq<Signature>, init: seq<Signature>,
                    last: Signature)
    requires sigs == init + [last]
    ensures Listings(c, trusted, commit, sigs)
            == Listings(c, trusted, commit, init) + if Counts(c, trusted, commit, last) then 1 else 0
    ensures CountingKeys(c, trusted, commit, sigs)
            == CountingKeys(c, trusted, commit, init) + if Counts(c, trusted, commit, last) then {last.key[1..]} else {}
  {
    assert sigs[..|sigs| - 1] == init;
  }

  lemma OneMoreKey(keys: set<Bytes>, key: Bytes)
    ensures |keys + {key}| == if key in keys then |keys| else |keys| + 1
  {
    if key in keys {
      assert keys + {key} == keys;
    }
  }

  lemma OneMoreListing(c: Crypto, trusted: set<Bytes>, commit: Digest, sigs: seq<Signature>, init: seq<Signature>,
                       last: Signature)
    requires sigs == init + [last]
    ensures NoKeyTwice(c, trusted, commit, sigs)
            <==> && NoKeyTwice(c, trusted, commit, init)
                 && (Counts(c, trusted, commit, last) ==>
                       forall i | 0 <= i < |init| && Counts(c, trusted, commit, init[i]) ::
                         init[i].key[1..] != last.key[1..])
  {
    if NoKeyTwice(c, trusted, commit, sigs) {
      forall i, j | 0 <= i < j < |init| && Counts(c, trusted, commit, init[i]) && Counts(c, trusted, commit, init[j])
        ensures init[i].key[1..] != init[j].key[1..]
      {
        assert sigs[i] == init[i] && sigs[j] == init[j];
      }
      if Counts(c, trusted, commit, last) {
        forall i | 0 <= i < |init| && Counts(c, trusted, commit, init[i]) ensures init[i].key[1..] != last.key[1..] {
          assert sigs[i] == init[i] && sigs[|init|] == last;
        }
      }
    }
  }

  /** While the 32-bit counter does not wrap and no counting key is listed twice, a message passes the
      quorum if and only if enough distinct trusted validators signed its commitment. */
  lemma QuorumIsDistinctKeys(c: Crypto, b: Bridge, m: Message)
    requires |m.signatures| < 0x1_0000_0000 && NoKeyTwice(c, b.trusted, Commitment(c, m), m.signatures)
    ensures QuorumMet(c, b, m) <==> |CountingKeys(c, b.trusted, Commitment(c, m), m.signatures)| >= b.minimum
  {
    CountsDistinctKeys(c, b.trusted, Commitment(c, m), m.signatures);
  }

  lemma {:induction false} CountsDistinctKeys(c: Crypto, trusted: set<Bytes>, commit: Digest, sigs: seq<Signature>)
    requires |sigs| < 0x1_0000_0000 && NoKeyTwice(c, trusted, commit, sigs)
    ensures ValidCount(c, trusted, commit, sigs) == |CountingKeys(c, trusted, commit, sigs)|
  {
    CounterWraps(c, trusted, commit, sigs);
    CountsKeysExactly(c, trusted, commit, sigs);
  }

  function Repeated(s: Signature, n: nat): seq<Signature> {
    if n == 0 then [] else Repeated(s, n - 1) + [s]
  }

  lemma {:induction false} RepeatedCounts(c: Crypto, trusted: set<Bytes>, commit: Digest, s: Signature, n: nat)
    requires Counts(c, trusted, commit, s)
    ensures Listings(c, trusted, commit, Repeated(s, n)) == n
    ensures n == 0 ==> CountingKeys(c, trusted, commit, Repeated(s, n)) == {}
    ensures n > 0 ==> CountingKeys(c, trusted, commit, Repeated(s, n)) == {s.key[1..]}
  {
    if n > 0 {
      RepeatedCounts(c, trusted, commit, s, n - 1);
      LastListing(c, trusted, commit, Repeated(s, n), Repeated(s, n - 1), s);
    }
  }

  lemma OneKeyMeetsQuorum(c: Crypto, trusted: set<Bytes>, commit: Digest, sigs: seq<Signature>, key: Bytes, n: nat)
    requires Listings(c, trusted, commit, sigs) == n < 0x1_0000_0000
    requires CountingKeys(c, trusted, commit, sigs) == {key}
    ensures ValidCount(c, trusted, commit, sigs) == n && |CountingKeys(c, trusted, commit, sigs)| == 1
  {
    CounterWraps(c, trusted, commit, sigs);
  }

  /** One valid signature meets every quorum, listed as often as the quorum asks. */
  lemma OneSignatureMeetsQuorum(c: Crypto, b: Bridge, m: Message, s: Signature)
    requires 0 < b.minimum < 0x1_0000_0000 && Counts(c, b.trusted, Commitment(c, m), s)
    ensures var m' := m.(signatures := Repeated(s, b.minimum));
            && QuorumMet(c, b, m')
            && |CountingKeys(c, b.trusted, Commitment(c, m'), m'.signatures)| == 1
  {
    RepeatedCounts(c, b.trusted, Commitment(c, m), s, b.minimum);
    OneKeyMeetsQuorum(c, b.trusted, Commitment(c, m), Repeated(s, b.minimum), s.key[1..], b.minimum);
  }

  // ---------------------------------------------------------------- the checks of a message

  function Folded(h: Hash, leaf: Digest, nodes: seq<Bytes>): Digest {
    if nodes == [] then leaf else h(Folded(h, leaf, nodes[..|nodes| - 1]) + nodes[|nodes| - 1])
  }

  function Amount(payload: Bytes): nat {
    if |payload| < 8 then 0 else FromLittleEndian(payload[..8])
  }

  /** The checks a delivered message passes before it takes effect, in the order of the code. */
  function Refusal(c: Crypto, b: Bridge, m: Message, origin: nat, destination: nat, now: nat, height: nat)
    : BridgeResult
  {
    if m.origin != origin || m.destination != destination then ErrInvalidChain
    else if now < (height + MIN_L1_CONFIRMATIONS) % TWO_64 then ErrInsufficientConf
    else if NonceKey(Decimal(m.origin), m.nonce) in b.keys then ErrReplay
    else if !QuorumMet(c, b, m) then ErrInsufficientSignatures
    else if Folded(c.h, m.payloadHash, m.proof) != m.stateRoot then ErrInvalidProof
    else OK
  }

  // ---------------------------------------------------------------- the four steps

  function RecordLock(b: Bridge, i: Intent): (Bridge, BridgeResult) {
    var key := NonceKey(i.sender, i.nonce);
    if i.origin != TALANTON || i.destination != DRACHMA then (b, ErrInvalidChain)
    else if i.amount == 0 then (b, ErrAmountZero)
    else if i.amount > MAX_U64 - b.locked then (b, ErrSupplyOverflow)
    else if key in b.keys then (b, ErrReplay)
    else (b.(keys := b.keys + {key}, locked := b.locked + i.amount), OK)
  }

  function ProcessMint(c: Crypto, b: Bridge, m: Message, now: nat, height: nat): (Bridge, BridgeResult) {
    var refusal := Refusal(c, b, m, TALANTON, DRACHMA, now, height);
    if refusal != OK then (b, refusal) else MintAmount(b, m.origin, m.nonce, Amount(m.payload))
  }

  function MintAmount(b: Bridge, chain: nat, nonce: nat, amount: nat): (Bridge, BridgeResult) {
    if amount > 0 && amount > (b.locked - b.minted) % TWO_64 then (b, ErrSupplyOverflow)
    else if amount > 0 && amount > MAX_U64 - b.minted then (b, ErrSupplyOverflow)
    else (b.(keys := b.keys + {NonceKey(Decimal(chain), nonce)}, minted := b.minted + amount), OK)
  }

  function RecordBurn(b: Bridge, i: Intent): (Bridge, BridgeResult) {
    var key := NonceKey(i.sender, i.nonce);
    if i.origin != DRACHMA || i.destination != TALANTON then (b, ErrInvalidChain)
    else if i.amount == 0 then (b, ErrAmountZero)
    else if key in b.keys then (b, ErrReplay)
    else (b.(keys := b.keys + {key}, minted := if i.amount <= b.minted then b.minted - i.amount else b.minted), OK)
  }

  function ProcessUnlock(c: Crypto, b: Bridge, m: Message, now: nat, height: nat): (Bridge, BridgeResult) {
    var refusal := Refusal(c, b, m, DRACHMA, TALANTON, now, height);
    if refusal != OK then (b, refusal) else (UnlockAmount(b, m.origin, m.nonce, Amount(m.payload)), OK)
  }

  function UnlockAmount(b: Bridge, chain: nat, nonce: nat, amount: nat): Bridge {
    b.(keys := b.keys + {NonceKey(Decimal(chain), nonce)},
       locked := if amount <= b.locked then b.locked - amount else b.locked)
  }

  // ---------------------------------------------------------------- runs

  /** The bridge with the transfers recorded on one side and not yet delivered on the other, by the
      nonce of the message that carries them, and every message nonce ever given out. */
  datatype World = World(
    b: Bridge, locks: map<nat, nat>, burns: map<nat, nat>, lockNonces: set<nat>, burnNonces: set<nat>)

  datatype Event =
    | Lock(intent: Intent, nonce: nat)
    | Mint(message: Message, now: nat, height: nat)
    | Burn(intent: Intent, nonce: nat)
    | Unlock(message: Message, now: nat, height: nat)

  /** Every message of a chain has a nonce of its own. */
  predicate Fresh(w: World, e: Event) {
    match e
    case Lock(_, nonce) => nonce !in w.lockNonces
    case Burn(_, nonce) => nonce !in w.burnNonces
    case Mint(_, _, _) => true
    case Unlock(_, _, _) => true
  }

  /** What a bridge that stays balanced takes for granted of whatever it accepts: a chain number is no address,
      a delivered message stands for a recorded transfer and carries its amount, and nobody burns more than was
      minted. `StepBalancedExactly` shows that nothing less will do; for the supplies alone to add up
      `Covered` is enough. */
  predicate Fair(c: Crypto, w: World, e: Event) {
    match e
    case Lock(i, _) => RecordLock(w.b, i).1 == OK ==> IsAddress(i.sender)
    case Burn(i, _) => RecordBurn(w.b, i).1 == OK ==> IsAddress(i.sender) && i.amount <= w.b.minted
    case Mint(m, now, height) =>
      ProcessMint(c, w.b, m, now, height).1 == OK ==> m.nonce in w.locks && Amount(m.payload) == w.locks[m.nonce]
    case Unlock(m, now, height) =>
      ProcessUnlock(c, w.b, m, now, height).1 == OK ==> m.nonce in w.burns && Amount(m.payload) == w.burns[m.nonce]
  }

  /** What it takes for the supplies to add up: a burn is within the minted supply, a delivered message carries
      what its transfer recorded, or nothing where none is recorded, and an unlock of more than is locked, which
      unlocks nothing, stands for nothing. Who sends is of no matter. */
  predicate Covered(c: Crypto, w: World, e: Event) {
    match e
    case Lock(_, _) => true
    case Burn(i, _) => RecordBurn(w.b, i).1 == OK ==> i.amount <= w.b.minted
    case Mint(m, now, height) =>
      ProcessMint(c, w.b, m, now, height).1 == OK ==> Amount(m.payload) == Due(w.locks, m.nonce)
    case Unlock(m, now, height) =>
      ProcessUnlock(c, w.b, m, now, height).1 == OK ==>
        Due(w.burns, m.nonce) == if Amount(m.payload) <= w.b.locked then Amount(m.payload) else 0
  }

  /** What the message of that nonce is to move. */
  function Due(pending: map<nat, nat>, nonce: nat): nat {
    if nonce in pending then pending[nonce] else 0
  }

  predicate IsAddress(sender: string) {
    sender != Decimal(TALANTON) && sender != Decimal(DRACHMA)
  }

  function After(c: Crypto, w: World, e: Event): World {
    match e
    case Lock(i, nonce) =>
      var (b, result) := RecordLock(w.b, i);
      if result != OK then w
      else World(b, w.locks[nonce := i.amount], w.burns, w.lockNonces + {nonce}, w.burnNonces)
    case Mint(m, now, height) =>
      var (b, result) := ProcessMint(c, w.b, m, now, height);
      if result != OK then w else w.(b := b, locks := w.locks - {m.nonce})
    case Burn(i, nonce) =>
      var (b, result) := RecordBurn(w.b, i);
      if result != OK then w
      else World(b, w.locks, w.burns[nonce := i.amount], w.lockNonces, w.burnNonces + {nonce})
    case Unlock(m, now, height) =>
      var (b, result) := ProcessUnlock(c, w.b, m, now, height);
      if result != OK then w else w.(b := b, burns := w.burns - {m.nonce})
  }

  predicate FreshRun(c: Crypto, w: World, events: seq<Event>)
    decreases |events|
  {
    events == [] || (Fresh(w, events[0]) && FreshRun(c, After(c, w, events[0]), events[1..]))
  }

  predicate FairRun(c: Crypto, w: World, events: seq<Event>)
    decreases |events|
  {
    events == [] || (Fair(c, w, events[0]) && FairRun(c, After(c, w, events[0]), events[1..]))
  }

  predicate CoveredRun(c: Crypto, w: World, events: seq<Event>)
    decreases |events|
  {
    events == [] || (Covered(c, w, events[0]) && CoveredRun(c, After(c, w, events[0]), events[1..]))
  }

  function Run(c: Crypto, w: World, events: seq<Event>): World
    decreases |events|
  {
    if events == [] then w else Run(c, After(c, w, events[0]), events[1..])
  }

  function Empty(trusted: set<Bytes>, minimum: nat): World {
    World(Bridge({}, 0, 0, trusted, minimum), map[], map[], {}, {})
  }

  // ---------------------------------------------------------------- the supplies

  /** Nothing is created or lost on the way: what is locked is what is minted and what is under way. */
  ghost predicate AddsUp(w: World) {
    w.b.locked == w.b.minted + Total(w.locks) + Total(w.burns)
  }

  /** What is under way has a nonce that was given out. Every event keeps this. */
  predicate Listed(w: World) {
    w.b.locked <= MAX_U64 && w.locks.Keys <= w.lockNonces && w.burns.Keys <= w.burnNonces
  }

  lemma StepListed(c: Crypto, w: World, e: Event)
    requires Listed(w)
    ensures Listed(After(c, w, e))
  {
  }

  /** An accepted lock keeps the sum, whoever sends it. */
  lemma LockAddsUp(c: Crypto, w: World, i: Intent, nonce: nat)
    requires AddsUp(w) && nonce !in w.locks && RecordLock(w.b, i).1 == OK
    ensures AddsUp(After(c, w, Lock(i, nonce)))
  {
    TotalAdd(w.locks, nonce, i.amount);
  }

  /** A burn of more than was minted is recorded as a success and takes nothing off the supply: an accepted burn
      keeps the sum if and only if the minted supply covers it. */
  lemma BurnAddsUpExactly(c: Crypto, w: World, i: Intent, nonce: nat)
    requires AddsUp(w) && nonce !in w.burns && RecordBurn(w.b, i).1 == OK
    ensures AddsUp(After(c, w, Burn(i, nonce))) <==> i.amount <= w.b.minted
  {
    TotalAdd(w.burns, nonce, i.amount);
  }

  lemma Settled(pending: map<nat, nat>, nonce: nat)
    ensures Total(pending) == Due(pending, nonce) + Total(pending - {nonce})
  {
    if nonce in pending {
      TotalRemove(pending, nonce);
    } else {
      assert pending - {nonce} == pending;
    }
  }

  /** An accepted mint keeps the sum if and only if its payload names the amount under way with its nonce, which
      is nothing where none is. */
  lemma MintAddsUpExactly(c: Crypto, w: World, m: Message, now: nat, height: nat)
    requires AddsUp(w) && ProcessMint(c, w.b, m, now, height).1 == OK
    ensures AddsUp(After(c, w, Mint(m, now, height))) <==> Amount(m.payload) == Due(w.locks, m.nonce)
  {
    Settled(w.locks, m.nonce);
  }

  /** An accepted unlock keeps the sum if and only if it unlocks the amount under way with its nonce; a payload
      that names more than is locked unlocks nothing. */
  lemma UnlockAddsUpExactly(c: Crypto, w: World, m: Message, now: nat, height: nat)
    requires AddsUp(w) && ProcessUnlock(c, w.b, m, now, height).1 == OK
    ensures AddsUp(After(c, w, Unlock(m, now, height)))
            <==> Due(w.burns, m.nonce) == if Amount(m.payload) <= w.b.locked then Amount(m.payload) else 0
  {
    Settled(w.burns, m.nonce);
  }

  /** Every single event keeps the sum if and only if it is covered. */
  lemma StepAddsUpExactly(c: Crypto, w: World, e: Event)
    requires AddsUp(w) && Listed(w) && Fresh(w, e)
    ensures AddsUp(After(c, w, e)) <==> Covered(c, w, e)
  {
    match e
    case Lock(i, nonce) =>
      if RecordLock(w.b, i).1 == OK {
        LockAddsUp(c, w, i, nonce);
      }
    case Burn(i, nonce) =>
      if RecordBurn(w.b, i).1 == OK {
        BurnAddsUpExactly(c, w, i, nonce);
      }
    case Mint(m, now, height) =>
      if ProcessMint(c, w.b, m, now, height).1 == OK {
        MintAddsUpExactly(c, w, m, now, height);
      }
    case Unlock(m, now, height) =>
      if ProcessUnlock(c, w.b, m, now, height).1 == OK {
        UnlockAddsUpExactly(c, w, m, now, height);
      }
  }

  /** Before every event of the run and after the last the supplies add up. */
  ghost predicate AlwaysAddsUp(c: Crypto, w: World, events: seq<Event>)
    decreases |events|
  {
    AddsUp(w) && (events == [] || AlwaysAddsUp(c, After(c, w, events[0]), events[1..]))
  }

  lemma {:induction false} RunFromSum(c: Crypto, w: World, events: seq<Event>)
    requires AddsUp(w) && Listed(w) && FreshRun(c, w, events)
    ensures AlwaysAddsUp(c, w, events) <==> CoveredRun(c, w, events)
    ensures CoveredRun(c, w, events) ==> AddsUp(Run(c, w, events))
    decreases |events|
  {
    if events != [] {
      StepAddsUpExactly(c, w, events[0]);
      StepListed(c, w, events[0]);
      if Covered(c, w, events[0]) {
        RunFromSum(c, After(c, w, events[0]), events[1..]);
      } else {
        NoSum(c, After(c, w, events[0]), events[1..]);
      }
    }
  }

  lemma NoSum(c: Crypto, w: World, events: seq<Event>)
    requires !AddsUp(w)
    ensures !AlwaysAddsUp(c, w, events)
  {
  }

  /** The supplies add up throughout a run if and only if all its events are covered. */
  lemma RunAddsUpExactly(c: Crypto, trusted: set<Bytes>, minimum: nat, events: seq<Event>)
    requires FreshRun(c, Empty(trusted, minimum), events)
    ensures AlwaysAddsUp(c, Empty(trusted, minimum), events) <==> CoveredRun(c, Empty(trusted, minimum), events)
  {
    RunFromSum(c, Empty(trusted, minimum), events);
  }

  /** After every covered run the locked supply is the minted supply plus what is under way either way, so it
      never falls short of the minted supply. */
  lemma RunAddsUp(c: Crypto, trusted: set<Bytes>, minimum: nat, events: seq<Event>)
    requires FreshRun(c, Empty(trusted, minimum), events) && CoveredRun(c, Empty(trusted, minimum), events)
    ensures var w := Run(c, Empty(trusted, minimum), events);
            w.b.minted <= w.b.locked && w.b.locked - w.b.minted == Total(w.locks) + Total(w.burns)
  {
    RunFromSum(c, Empty(trusted, minimum), events);
  }

  // ---------------------------------------------------------------- the supplies and the keys

  /** A recorded transfer is undelivered exactly while its message's key is unused: it can still be delivered. */
  ghost predicate Tracked(keys: set<string>, chain: nat, pending: map<nat, nat>, nonces: set<nat>) {
    && (forall n | NonceKey(Decimal(chain), n) in keys :: n in nonces)
    && (forall n :: n in pending <==> n in nonces && NonceKey(Decimal(chain), n) !in keys)
  }

  /** The supplies add up, and every transfer under way can still be delivered. */
  ghost predicate Balanced(w: World) {
    && AddsUp(w)
    && w.b.locked <= MAX_U64
    && Tracked(w.b.keys, TALANTON, w.locks, w.lockNonces)
    && Tracked(w.b.keys, DRACHMA, w.burns, w.burnNonces)
  }

  /** Every transfer under way moves something. */
  ghost predicate Positive(pending: map<nat, nat>) {
    forall n | n in pending :: pending[n] > 0
  }

  ghost predicate Sound(w: World) {
    Balanced(w) && Positive(w.locks) && Positive(w.burns)
  }

  lemma ChainsDiffer()
    ensures Decimal(TALANTON) != Decimal(DRACHMA)
  {
    DecimalDigits(TALANTON);
    DecimalDigits(DRACHMA);
  }

  /** A key under another name leaves the tracking of a chain alone. */
  lemma OtherKey(keys: set<string>, chain: nat, pending: map<nat, nat>, nonces: set<nat>, sender: string, nonce: nat)
    requires Tracked(keys, chain, pending, nonces) && sender != Decimal(chain)
    ensures Tracked(keys + {NonceKey(sender, nonce)}, chain, pending, nonces)
  {
    forall n ensures NonceKey(Decimal(chain), n) != NonceKey(sender, nonce) {
      if NonceKey(Decimal(chain), n) == NonceKey(sender, nonce) {
        NonceKeyInjective(Decimal(chain), n, sender, nonce);
      }
    }
  }

  /** A delivered message's key takes its transfer off the list. */
  lemma OwnKey(keys: set<string>, chain: nat, pending: map<nat, nat>, nonces: set<nat>, nonce: nat)
    requires Tracked(keys, chain, pending, nonces) && nonce in nonces
    ensures Tracked(keys + {NonceKey(Decimal(chain), nonce)}, chain, pending - {nonce}, nonces)
  {
    forall n | n != nonce ensures NonceKey(Decimal(chain), n) != NonceKey(Decimal(chain), nonce) {
      if NonceKey(Decimal(chain), n) == NonceKey(Decimal(chain), nonce) {
        NonceKeyInjective(Decimal(chain), n, Decimal(chain), nonce);
      }
    }
  }

  /** A key under the chain's own number, where only delivered messages have theirs, breaks the tracking. */
  lemma BadSender(keys: set<string>, chain: nat, pending: map<nat, nat>, nonces: set<nat>, nonce: nat)
    requires NonceKey(Decimal(chain), nonce) !in keys
    requires forall n | n in nonces && NonceKey(Decimal(chain), n) !in keys :: n in pending
    ensures !Tracked(keys + {NonceKey(Decimal(chain), nonce)}, chain, pending, nonces)
  {
  }

  lemma LockBalanced(c: Crypto, w: World, i: Intent, nonce: nat)
    requires Balanced(w) && nonce !in w.lockNonces && IsAddress(i.sender)
    ensures Balanced(After(c, w, Lock(i, nonce)))
  {
    if RecordLock(w.b, i).1 == OK {
      TotalAdd(w.locks, nonce, i.amount);
      OtherKey(w.b.keys, TALANTON, w.locks, w.lockNonces, i.sender, i.nonce);
      OtherKey(w.b.keys, DRACHMA, w.burns, w.burnNonces, i.sender, i.nonce);
    }
  }

  /** An accepted lock keeps the supplies balanced and the transfers deliverable if and only if its sender is no
      chain number: such a sender's nonce key is the key of a message, which `ChainSenderBlocks` says is then
      refused for good. */
  lemma LockBalancedExactly(c: Crypto, w: World, i: Intent, nonce: nat)
    requires Balanced(w) && nonce !in w.lockNonces && RecordLock(w.b, i).1 == OK
    ensures Balanced(After(c, w, Lock(i, nonce))) <==> IsAddress(i.sender)
  {
    if IsAddress(i.sender) {
      LockBalanced(c, w, i, nonce);
    } else if i.sender == Decimal(TALANTON) {
      BadSender(w.b.keys, TALANTON, w.locks[nonce := i.amount], w.lockNonces + {nonce}, i.nonce);
    } else {
      BadSender(w.b.keys, DRACHMA, w.burns, w.burnNonces, i.nonce);
    }
  }

  lemma BurnBalanced(c: Crypto, w: World, i: Intent, nonce: nat)
    requires Balanced(w) && nonce !in w.burnNonces && IsAddress(i.sender) && i.amount <= w.b.minted
    ensures Balanced(After(c, w, Burn(i, nonce)))
  {
    if RecordBurn(w.b, i).1 == OK {
      TotalAdd(w.burns, nonce, i.amount);
      OtherKey(w.b.keys, TALANTON, w.locks, w.lockNonces, i.sender, i.nonce);
      OtherKey(w.b.keys, DRACHMA, w.burns, w.burnNonces, i.sender, i.nonce);
    }
  }

  /** An accepted burn keeps the supplies balanced and the transfers deliverable if and only if the minted supply
      covers it and its sender is no chain number. */
  lemma BurnCoveredExactly(c: Crypto, w: World, i: Intent, nonce: nat)
    requires Balanced(w) && nonce !in w.burnNonces && RecordBurn(w.b, i).1 == OK
    ensures Balanced(After(c, w, Burn(i, nonce))) <==> IsAddress(i.sender) && i.amount <= w.b.minted
  {
    TotalAdd(w.burns, nonce, i.amount);
    if IsAddress(i.sender) && i.amount <= w.b.minted {
      BurnBalanced(c, w, i, nonce);
    } else if i.sender == Decimal(TALANTON) {
      BadSender(w.b.keys, TALANTON, w.locks, w.lockNonces, i.nonce);
    } else if i.sender == Decimal(DRACHMA) {
      BadSender(w.b.keys, DRACHMA, w.burns[nonce := i.amount], w.burnNonces + {nonce}, i.nonce);
    }
  }

  /** What `Refusal` leaves to be known about a message that passes. */
  lemma Passed(c: Crypto, b: Bridge, m: Message, origin: nat, destination: nat, now: nat, height: nat)
    requires Refusal(c, b, m, origin, destination, now, height) == OK
    ensures m.origin == origin && NonceKey(Decimal(origin), m.nonce) !in b.keys
  {
  }

  lemma MintFits(b: Bridge, chain: nat, nonce: nat, amount: nat)
    requires b.locked <= MAX_U64 && b.minted + amount <= b.locked
    ensures MintAmount(b, chain, nonce, amount)
            == (b.(keys := b.keys + {NonceKey(Decimal(chain), nonce)}, minted := b.minted + amount), OK)
  {
  }

  lemma MintKeepsBalance(w: World, nonce: nat)
    requires Balanced(w) && nonce in w.locks
    ensures var (b, result) := MintAmount(w.b, TALANTON, nonce, w.locks[nonce]);
            && result == OK && b.minted == w.b.minted + w.locks[nonce]
            && Balanced(w.(b := b, locks := w.locks - {nonce}))
  {
    TotalRemove(w.locks, nonce);
    MintFits(w.b, TALANTON, nonce, w.locks[nonce]);
    ChainsDiffer();
    OwnKey(w.b.keys, TALANTON, w.locks, w.lockNonces, nonce);
    OtherKey(w.b.keys, DRACHMA, w.burns, w.burnNonces, Decimal(TALANTON), nonce);
  }

  lemma UnlockKeepsBalance(w: World, nonce: nat)
    requires Balanced(w) && nonce in w.burns
    ensures var b := UnlockAmount(w.b, DRACHMA, nonce, w.burns[nonce]);
            && b.locked == w.b.locked - w.burns[nonce]
            && Balanced(w.(b := b, burns := w.burns - {nonce}))
  {
    TotalRemove(w.burns, nonce);
    ChainsDiffer();
    OwnKey(w.b.keys, DRACHMA, w.burns, w.burnNonces, nonce);
    OtherKey(w.b.keys, TALANTON, w.locks, w.lockNonces, Decimal(DRACHMA), nonce);
  }

  /** The quorum signs the hash of a payload, and nothing compares the payload with it: whatever payload is
      delivered, the checks come out the same. */
  lemma PayloadUnbound(c: Crypto, b: Bridge, m: Message, payload: Bytes, origin: nat, destination: nat, now: nat,
                       height: nat)
    ensures Refusal(c, b, m.(payload := payload), origin, destination, now, height)
            == Refusal(c, b, m, origin, destination, now, height)
  {
    assert Commitment(c, m.(payload := payload)) == Commitment(c, m);
  }

  /** An accepted mint keeps the supplies balanced and the keys tracked if and only if its message stands for a
      lock under way and its payload names the amount locked. */
  lemma MintBalancedExactly(c: Crypto, w: World, m: Message, now: nat, height: nat)
    requires Balanced(w) && ProcessMint(c, w.b, m, now, height).1 == OK
    ensures Balanced(After(c, w, Mint(m, now, height)))
            <==> m.nonce in w.locks && Amount(m.payload) == w.locks[m.nonce]
  {
    Passed(c, w.b, m, TALANTON, DRACHMA, now, height);
    if m.nonce in w.locks {
      TotalRemove(w.locks, m.nonce);
      MintKeepsBalance(w, m.nonce);
    } else {
      assert NonceKey(Decimal(TALANTON), m.nonce) in After(c, w, Mint(m, now, height)).b.keys;
    }
  }

  /** The same of an accepted unlock, where every burn under way moves something. */
  lemma UnlockBalancedExactly(c: Crypto, w: World, m: Message, now: nat, height: nat)
    requires Balanced(w) && Positive(w.burns) && ProcessUnlock(c, w.b, m, now, height).1 == OK
    ensures Balanced(After(c, w, Unlock(m, now, height)))
            <==> m.nonce in w.burns && Amount(m.payload) == w.burns[m.nonce]
  {
    Passed(c, w.b, m, DRACHMA, TALANTON, now, height);
    if m.nonce in w.burns {
      TotalRemove(w.burns, m.nonce);
      UnlockKeepsBalance(w, m.nonce);
    } else {
      assert NonceKey(Decimal(DRACHMA), m.nonce) in After(c, w, Unlock(m, now, height)).b.keys;
    }
  }

  /** Any message that passes the checks can be made to mint the whole supply not minted yet, by a payload
      that names it; `EightByteAmount` writes such a payload. By `MintAddsUpExactly` the supplies then no longer
      add up unless that was the amount locked. */
  lemma WholeSupplyMinted(c: Crypto, w: World, m: Message, payload: Bytes, now: nat, height: nat)
    requires AddsUp(w) && w.b.locked <= MAX_U64 && Refusal(c, w.b, m, TALANTON, DRACHMA, now, height) == OK
    requires Amount(payload) == w.b.locked - w.b.minted
    ensures var (b, result) := ProcessMint(c, w.b, m.(payload := payload), now, height);
            result == OK && b.minted == b.locked == w.b.locked
  {
    PayloadUnbound(c, w.b, m, payload, TALANTON, DRACHMA, now, height);
    MintFits(w.b, TALANTON, m.nonce, Amount(payload));
    Passed(c, w.b, m, TALANTON, DRACHMA, now, height);
  }

  lemma EightByteAmount(n: nat, payload: Bytes, len: nat)
    requires n <= MAX_U64 && len == 8 && payload == LittleEndian(n, len)
    ensures Amount(payload) == n
  {
    assert Pow256(8) == TWO_64;
    LittleEndianReadBack(n, len, Pow256(len));
    assert payload[..8] == payload;
  }

  lemma StepPositive(c: Crypto, w: World, e: Event)
    requires Positive(w.locks) && Positive(w.burns)
    ensures Positive(After(c, w, e).locks) && Positive(After(c, w, e).burns)
  {
  }

  /** Every single event keeps the supplies balanced and the transfers deliverable if and only if it is fair. */
  lemma StepBalancedExactly(c: Crypto, w: World, e: Event)
    requires Sound(w) && Fresh(w, e)
    ensures Balanced(After(c, w, e)) <==> Fair(c, w, e)
    ensures Fair(c, w, e) ==> Sound(After(c, w, e))
  {
    StepPositive(c, w, e);
    match e
    case Lock(i, nonce) =>
      if RecordLock(w.b, i).1 == OK {
        LockBalancedExactly(c, w, i, nonce);
      }
    case Burn(i, nonce) =>
      if RecordBurn(w.b, i).1 == OK {
        BurnCoveredExactly(c, w, i, nonce);
      }
    case Mint(m, now, height) =>
      if ProcessMint(c, w.b, m, now, height).1 == OK {
        MintBalancedExactly(c, w, m, now, height);
      }
    case Unlock(m, now, height) =>
      if ProcessUnlock(c, w.b, m, now, height).1 == OK {
        UnlockBalancedExactly(c, w, m, now, height);
      }
  }

  /** Balanced before every event of the run and after the last. */
  ghost predicate AlwaysBalanced(c: Crypto, w: World, events: seq<Event>)
    decreases |events|
  {
    Balanced(w) && (events == [] || AlwaysBalanced(c, After(c, w, events[0]), events[1..]))
  }

  lemma {:induction false} RunFromSound(c: Crypto, w: World, events: seq<Event>)
    requires Sound(w) && FreshRun(c, w, events)
    ensures AlwaysBalanced(c, w, events) <==> FairRun(c, w, events)
    ensures FairRun(c, w, events) ==> Sound(Run(c, w, events))
    decreases |events|
  {
    if events != [] {
      StepBalancedExactly(c, w, events[0]);
      if Fair(c, w, events[0]) {
        RunFromSound(c, After(c, w, events[0]), events[1..]);
      } else {
        NotBalanced(c, After(c, w, events[0]), events[1..]);
      }
    }
  }

  lemma NotBalanced(c: Crypto, w: World, events: seq<Event>)
    requires !Balanced(w)
    ensures !AlwaysBalanced(c, w, events)
  {
  }

  /** The supplies add up and the transfers stay deliverable throughout a run if and only if all its events are
      fair. */
  lemma RunBalancedExactly(c: Crypto, trusted: set<Bytes>, minimum: nat, events: seq<Event>)
    requires FreshRun(c, Empty(trusted, minimum), events)
    ensures AlwaysBalanced(c, Empty(trusted, minimum), events) <==> FairRun(c, Empty(trusted, minimum), events)
  {
    RunFromSound(c, Empty(trusted, minimum), events);
  }

  /** After every fair run the supplies add up, and no transfer under way has its message's key used. */
  lemma RunBalanced(c: Crypto, trusted: set<Bytes>, minimum: nat, events: seq<Event>)
    requires FreshRun(c, Empty(trusted, minimum), events) && FairRun(c, Empty(trusted, minimum), events)
    ensures var w := Run(c, Empty(trusted, minimum), events);
            && Balanced(w)
            && w.b.minted <= w.b.locked
            && w.b.locked - w.b.minted == Total(w.locks) + Total(w.burns)
            && (forall n | n in w.locks :: NonceKey(Decimal(TALANTON), n) !in w.b.keys)
            && (forall n | n in w.burns :: NonceKey(Decimal(DRACHMA), n) !in w.b.keys)
  {
    RunFromSound(c, Empty(trusted, minimum), events);
  }

  // ---------------------------------------------------------------- once, and in the end

  lemma {:induction false} KeysKept(c: Crypto, w: World, events: seq<Event>)
    ensures w.b.keys <= Run(c, w, events).b.keys
    decreases |events|
  {
    if events != [] {
      KeysKept(c, After(c, w, events[0]), events[1..]);
    }
  }

  /** A lock sent under the name of its chain uses up the key of that chain's message: whatever the message
      carries, it is refused from then on, although the lock keeps the supplies adding up. */
  lemma ChainSenderBlocks(c: Crypto, w: World, i: Intent, nonce: nat, events: seq<Event>, m: Message, now: nat,
                          height: nat)
    requires i.sender == Decimal(TALANTON) && RecordLock(w.b, i).1 == OK && m.nonce == i.nonce
    ensures ProcessMint(c, Run(c, After(c, w, Lock(i, nonce)), events).b, m, now, height).1 != OK
  {
    KeysKept(c, After(c, w, Lock(i, nonce)), events);
  }

  /** A message that took effect never takes effect again, however the run goes on. */
  lemma NoSecondEffect(c: Crypto, w: World, m: Message, now: nat, height: nat, events: seq<Event>,
                       again: Message, now': nat, height': nat)
    requires again.origin == m.origin && again.nonce == m.nonce
    ensures ProcessMint(c, w.b, m, now, height).1 == OK ==>
              var v := Run(c, After(c, w, Mint(m, now, height)), events);
              ProcessMint(c, v.b, again, now', height').1 != OK
              && After(c, v, Mint(again, now', height')) == v
    ensures ProcessUnlock(c, w.b, m, now, height).1 == OK ==>
              var v := Run(c, After(c, w, Unlock(m, now, height)), events);
              ProcessUnlock(c, v.b, again, now', height').1 != OK
              && After(c, v, Unlock(again, now', height')) == v
  {
    KeysKept(c, After(c, w, Mint(m, now, height)), events);
    KeysKept(c, After(c, w, Unlock(m, now, height)), events);
  }

  /** A transfer under way can always be completed: a message that passes the checks is never refused
      for lack of supply, and moves exactly the recorded amount. */
  lemma MintSucceeds(c: Crypto, w: World, m: Message, now: nat, height: nat)
    requires AddsUp(w) && w.b.locked <= MAX_U64 && m.nonce in w.locks && Amount(m.payload) == w.locks[m.nonce]
    requires Refusal(c, w.b, m, TALANTON, DRACHMA, now, height) == OK
    ensures var (b, result) := ProcessMint(c, w.b, m, now, height);
            result == OK && b.minted == w.b.minted + w.locks[m.nonce] && b.locked == w.b.locked
  {
    Passed(c, w.b, m, TALANTON, DRACHMA, now, height);
    Settled(w.locks, m.nonce);
    MintFits(w.b, TALANTON, m.nonce, w.locks[m.nonce]);
  }

  lemma UnlockSucceeds(c: Crypto, w: World, m: Message, now: nat, height: nat)
    requires AddsUp(w) && m.nonce in w.burns && Amount(m.payload) == w.burns[m.nonce]
    requires Refusal(c, w.b, m, DRACHMA, TALANTON, now, height) == OK
    ensures var (b, result) := ProcessUnlock(c, w.b, m, now, height);
            result == OK && b.locked == w.b.locked - w.burns[m.nonce] && b.minted == w.b.minted
  {
    Passed(c, w.b, m, DRACHMA, TALANTON, now, height);
    Settled(w.burns, m.nonce);
  }
}
