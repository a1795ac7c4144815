/** The keypad driver's ring of key data, which drops the oldest key when it is full, and the two readers
    that skip partial keys. */
module KeypadQueue {
  const KEYPAD_EFI_KEY_MAX_COUNT: nat := 256
  const CONTROL_PRESSED: bv32 := 0xC

  datatype Key = Key(scanCode: nat, unicodeChar: nat)

  datatype KeyData = KeyData(key: Key, shiftState: bv32, toggleState: nat)

  const NO_KEY := KeyData(Key(0, 0), 0, 0)

  /** A keystroke that has no key yet. */
  predicate Partial(k: KeyData) {
    k.key.scanCode == 0 && k.key.unicodeChar == 0
  }

  // ----- What the queue means -----

  /** At most 255 keys: one slot of the ring stays free. */
  function Pushed(q: seq<KeyData>, k: KeyData): (r: seq<KeyData>)
    requires |q| < KEYPAD_EFI_KEY_MAX_COUNT
    ensures |r| < KEYPAD_EFI_KEY_MAX_COUNT
  {
    if |q| == KEYPAD_EFI_KEY_MAX_COUNT - 1 then q[1..] + [k] else q + [k]
  }

  function PushedAll(q: seq<KeyData>, ks: seq<KeyData>): (r: seq<KeyData>)
    requires |q| < KEYPAD_EFI_KEY_MAX_COUNT
    ensures |r| < KEYPAD_EFI_KEY_MAX_COUNT
    decreases |ks|
  {
    if ks == [] then q else PushedAll(Pushed(q, ks[0]), ks[1..])
  }

  /** However many keys arrive, the last 255 of the queued and the new ones remain. */
  lemma {:induction false} PushedAllKeepsLast(q: seq<KeyData>, ks: seq<KeyData>)
    requires |q| < KEYPAD_EFI_KEY_MAX_COUNT
    ensures var all, most := q + ks, KEYPAD_EFI_KEY_MAX_COUNT - 1;
            PushedAll(q, ks) == all[if |all| <= most then 0 else |all| - most..]
    decreases |ks|
  {
    if ks == [] {
      assert q + ks == q;
    } else {
      var q' := Pushed(q, ks[0]);
      PushedAllKeepsLast(q', ks[1..]);
      if |q| == KEYPAD_EFI_KEY_MAX_COUNT - 1 {
        assert q' + ks[1..] == (q + ks)[1..];
      } else {
        assert q' + ks[1..] == q + ks;
      }
    }
  }

  function DropPartial(q: seq<KeyData>): (r: seq<KeyData>)
    ensures |r| <= |q|
    ensures r == q[|q| - |r|..]
    ensures r != [] ==> r[0].key != Key(0, 0)
    ensures forall i :: 0 <= i < |q| - |r| ==> q[i].key == Key(0, 0)
  {
    if q != [] && Partial(q[0]) then
      var r := DropPartial(q[1..]);
      assert forall i :: 0 < i < |q| ==> q[i] == q[1..][i - 1];
      r
    else q
  }

  /** ctrl-a to ctrl-z become 1 to 26. */
  function Translated(k: KeyData): Key {
    if k.shiftState & CONTROL_PRESSED == 0 then k.key
    else if 'a' as nat <= k.key.unicodeChar <= 'z' as nat then k.key.(unicodeChar := k.key.unicodeChar - 'a' as nat + 1)
    else if 'A' as nat <= k.key.unicodeChar <= 'Z' as nat then k.key.(unicodeChar := k.key.unicodeChar - 'A' as nat + 1)
    else k.key
  }

  /** Either control key is held. */
  predicate Control(k: KeyData) {
    k.shiftState & 0x4 != 0 || k.shiftState & 0x8 != 0
  }

  /** The n-th letter of the alphabet, of either case. */
  predicate IsLetter(c: nat, n: nat) {
    1 <= n <= 26 && (c == 64 + n || c == 96 + n)
  }

  lemma ControlIs(k: KeyData)
    ensures Control(k) <==> k.shiftState & CONTROL_PRESSED != 0
  {
  }

  /** With control held the n-th letter of either case becomes the control character n, and every other key
      stays as it is; the scan code never changes. */
  lemma TranslatedIs(k: KeyData, n: nat)
    ensures Control(k) && IsLetter(k.key.unicodeChar, n) ==> Translated(k) == Key(k.key.scanCode, n)
    ensures !Control(k) ==> Translated(k) == k.key
    ensures (forall m: nat :: !IsLetter(k.key.unicodeChar, m)) ==> Translated(k) == k.key
  {
    ControlIs(k);
    if 65 <= k.key.unicodeChar <= 90 {
      assert IsLetter(k.key.unicodeChar, k.key.unicodeChar - 64);
    } else if 97 <= k.key.unicodeChar <= 122 {
      assert IsLetter(k.key.unicodeChar, k.key.unicodeChar - 96);
    }
  }

  datatype Status = Success | NotReady | DeviceError

  datatype Reading = Reading(status: Status, key: Key, left: seq<KeyData>)

  /** What the n-th poll brings, and what is left to come; nothing comes after the last batch. */
  function BatchAt(batches: seq<seq<KeyData>>, n: nat): seq<KeyData> {
    if n < |batches| then batches[n] else []
  }

  function BatchesFrom(batches: seq<seq<KeyData>>, n: nat): seq<seq<KeyData>> {
    if n < |batches| then batches[n..] else []
  }

  /** ReadKeyStroke when the n-th poll of the device brings the n-th batch of keys. */
  function Read(q: seq<KeyData>, batches: seq<seq<KeyData>>): Reading
    requires |q| < KEYPAD_EFI_KEY_MAX_COUNT
    decreases |batches|, |q|
  {
    var polled := PushedAll(q, BatchAt(batches, 0));
    var later := BatchesFrom(batches, 1);
    if polled == [] then Reading(NotReady, Key(0, 0), [])
    else if Partial(polled[0]) then Read(polled[1..], later)
    else Reading(Success, Translated(polled[0]), polled[1..])
  }

  lemma ReadPolls(q: seq<KeyData>, batches: seq<seq<KeyData>>, n: nat)
    requires |q| < KEYPAD_EFI_KEY_MAX_COUNT
    ensures var polled := PushedAll(q, BatchAt(batches, n));
            Read(q, BatchesFrom(batches, n))
            == if polled == [] then Reading(NotReady, Key(0, 0), [])
               else if Partial(polled[0]) then Read(polled[1..], BatchesFrom(batches, n + 1))
               else Reading(Success, Translated(polled[0]), polled[1..])
  {
    assert BatchAt(BatchesFrom(batches, n), 0) == BatchAt(batches, n);
    assert BatchesFrom(BatchesFrom(batches, n), 1) == BatchesFrom(batches, n + 1);
  }

  /** Whatever is queued and whatever arrives, a read delivers a key or says that there is none: it succeeds
      exactly if the key it returns is not the null key. */
  lemma {:induction false} SuccessIsAKey(q: seq<KeyData>, batches: seq<seq<KeyData>>)
    requires |q| < KEYPAD_EFI_KEY_MAX_COUNT
    ensures var r := Read(q, batches);
            (r.status == Success || r.status == NotReady) && (r.status == Success <==> r.key != Key(0, 0))
    decreases |batches|, |q|
  {
    var polled := PushedAll(q, BatchAt(batches, 0));
    if polled != [] && Partial(polled[0]) {
      SuccessIsAKey(polled[1..], BatchesFrom(batches, 1));
    }
  }

  /** With no new arrivals the first key that is not partial is returned, or NOT_READY if there is none. */
  lemma {:induction false} ReadWithoutArrivals(q: seq<KeyData>)
    requires |q| < KEYPAD_EFI_KEY_MAX_COUNT
    ensures var rest := DropPartial(q);
            Read(q, []) == if rest == [] then Reading(NotReady, Key(0, 0), [])
                           else Reading(Success, Translated(rest[0]), rest[1..])
    decreases |q|
  {
    assert PushedAll(q, []) == q;
    if q != [] && Partial(q[0]) {
      ReadWithoutArrivals(q[1..]);
    }
  }

  /** The queued keys, then those of the first `n` polls. */
  function Arrived(q: seq<KeyData>, batches: seq<seq<KeyData>>, n: nat): seq<KeyData> {
    if n == 0 then q else Arrived(q, batches, n - 1) + BatchAt(batches, n - 1)
  }

  /** The first poll, and then the others. */
  lemma {:induction false} ArrivedAfterPoll(q: seq<KeyData>, batches: seq<seq<KeyData>>, n: nat)
    ensures Arrived(q, batches, n + 1) == Arrived(q + BatchAt(batches, 0), BatchesFrom(batches, 1), n)
  {
    if n > 0 {
      ArrivedAfterPoll(q, batches, n - 1);
      assert BatchAt(BatchesFrom(batches, 1), n - 1) == BatchAt(batches, n);
    }
  }

  lemma {:induction false} ArrivedWithout(k: KeyData, q: seq<KeyData>, batches: seq<seq<KeyData>>, n: nat)
    ensures Arrived([k] + q, batches, n) == [k] + Arrived(q, batches, n)
  {
    if n > 0 {
      ArrivedWithout(k, q, batches, n - 1);
    }
  }

  lemma {:induction false} ArrivedGrows(q: seq<KeyData>, batches: seq<seq<KeyData>>, m: nat, n: nat)
    requires m <= n
    ensures |Arrived(q, batches, m)| <= |Arrived(q, batches, n)|
    decreases n
  {
    if m < n {
      ArrivedGrows(q, batches, m, n - 1);
    }
  }

  lemma NoOverflow(q: seq<KeyData>, ks: seq<KeyData>)
    requires |q| + |ks| < KEYPAD_EFI_KEY_MAX_COUNT
    ensures PushedAll(q, ks) == q + ks
  {
    PushedAllKeepsLast(q, ks);
  }

  /** What a read is to give when its last poll is the one numbered `n`: all keys that had arrived by then but
      the n partial ones it has skipped, the first of them not partial and delivered. */
  predicate ReadAt(r: Reading, seen: seq<KeyData>, n: nat) {
    && n <= |seen| && (forall i: nat | i < n :: seen[i].key == Key(0, 0))
    && (if n == |seen| then r == Reading(NotReady, Key(0, 0), [])
        else seen[n].key != Key(0, 0) && r == Reading(Success, Translated(seen[n]), seen[n + 1..]))
  }

  lemma ReadAtNext(r: Reading, k: KeyData, seen: seq<KeyData>, n: nat)
    requires Partial(k) && ReadAt(r, seen, n)
    ensures ReadAt(r, [k] + seen, n + 1)
  {
  }

  /** All keys that ever arrive find room. */
  predicate Fits(q: seq<KeyData>, batches: seq<seq<KeyData>>) {
    |Arrived(q, batches, |batches|)| < KEYPAD_EFI_KEY_MAX_COUNT
  }

  lemma PollFits(q: seq<KeyData>, batches: seq<seq<KeyData>>) returns (polled: seq<KeyData>)
    requires Fits(q, batches)
    ensures |q| < KEYPAD_EFI_KEY_MAX_COUNT
    ensures polled == PushedAll(q, BatchAt(batches, 0)) == q + BatchAt(batches, 0) == Arrived(q, batches, 1)
  {
    polled := q + BatchAt(batches, 0);
    ArrivedGrows(q, batches, 0, |batches|);
    assert Arrived(q, batches, 1) == Arrived(q, batches, 0) + BatchAt(batches, 0);
    if batches != [] {
      ArrivedGrows(q, batches, 1, |batches|);
    }
    NoOverflow(q, BatchAt(batches, 0));
  }

  /** After the first poll has brought the key `k` to the head and it has been taken. */
  lemma AfterTaking(q: seq<KeyData>, batches: seq<seq<KeyData>>, k: KeyData, rest: seq<KeyData>, n: nat)
    requires q + BatchAt(batches, 0) == [k] + rest
    ensures Arrived(q, batches, n + 1) == [k] + Arrived(rest, BatchesFrom(batches, 1), n)
  {
    ArrivedAfterPoll(q, batches, n);
    ArrivedWithout(k, rest, BatchesFrom(batches, 1), n);
  }

  lemma RestFits(q: seq<KeyData>, batches: seq<seq<KeyData>>, k: KeyData, rest: seq<KeyData>)
    requires Fits(q, batches) && q + BatchAt(batches, 0) == [k] + rest
    ensures Fits(rest, BatchesFrom(batches, 1))
  {
    if batches != [] {
      AfterTaking(q, batches, k, rest, |batches| - 1);
    }
  }

  /** While nothing overflows, whatever arrives at each poll, a read delivers the first key that is not partial
      of the queued keys followed by those polled so far; if these are all partial it is NOT_READY. */
  lemma {:induction false} ReadWithArrivals(q: seq<KeyData>, batches: seq<seq<KeyData>>) returns (n: nat)
    requires Fits(q, batches) && |q| < KEYPAD_EFI_KEY_MAX_COUNT
    ensures ReadAt(Read(q, batches), Arrived(q, batches, n + 1), n)
    decreases |batches|, |q|
  {
    var polled := PollFits(q, batches);
    if polled == [] || !Partial(polled[0]) {
      n := 0;
    } else {
      var k, rest, later := polled[0], polled[1..], BatchesFrom(batches, 1);
      assert polled == [k] + rest;
      RestFits(q, batches, k, rest);
      var m := ReadWithArrivals(rest, later);
      n := m + 1;
      AfterTaking(q, batches, k, rest, n);
      ReadAtNext(Read(rest, later), k, Arrived(rest, later, n), m);
    }
  }

  /** After WaitForKey the queue is as ReadKeyStroke wants it: an event was signalled exactly when the
      next read, without arrivals, succeeds. */
  lemma WaitPredictsRead(q: seq<KeyData>)
    requires |q| < KEYPAD_EFI_KEY_MAX_COUNT
    ensures Read(DropPartial(q), []).status == (if DropPartial(q) != [] then Success else NotReady)
    ensures Read(DropPartial(q), []) == Read(q, [])
  {
    ReadWithoutArrivals(q);
    ReadWithoutArrivals(DropPartial(q));
  }

  // ----- Runs -----

  datatype Event = Push(k: KeyData) | Pop | Wait | Reset

  /** A run numbers the arrivals; `queue` and `delivered` are positions in them. */
  datatype Run = Run(arrivals: seq<KeyData>, first: nat, delivered: seq<nat>)

  function QueueOf(r: Run): seq<KeyData>
    requires r.first <= |r.arrivals|
  {
    r.arrivals[r.first..]
  }

  ghost predicate RunOk(r: Run) {
    && r.first <= |r.arrivals|
    && |r.arrivals| - r.first < KEYPAD_EFI_KEY_MAX_COUNT
    && (forall i: nat | i < |r.delivered| :: r.delivered[i] < r.first)
    && (forall i: nat, j: nat | i < j < |r.delivered| :: r.delivered[i] < r.delivered[j])
  }

  function After(r: Run, e: Event): Run
    requires r.first <= |r.arrivals|
  {
    match e
    case Push(k) =>
      Run(r.arrivals + [k],
          if |r.arrivals| - r.first == KEYPAD_EFI_KEY_MAX_COUNT - 1 then r.first + 1 else r.first, r.delivered)
    case Pop => if r.first == |r.arrivals| then r else r.(first := r.first + 1, delivered := r.delivered + [r.first])
    case Wait => r.(first := |r.arrivals| - |DropPartial(QueueOf(r))|)
    case Reset => r.(first := |r.arrivals|)
  }

  function AfterAll(r: Run, es: seq<Event>): (r': Run)
    requires r.first <= |r.arrivals|
    ensures r'.first <= |r'.arrivals|
    decreases |es|
  {
    if es == [] then r else AfterAll(After(r, es[0]), es[1..])
  }

  function QueueAfter(q: seq<KeyData>, e: Event): (r: seq<KeyData>)
    requires |q| < KEYPAD_EFI_KEY_MAX_COUNT
    ensures |r| < KEYPAD_EFI_KEY_MAX_COUNT
  {
    match e
    case Push(k) => Pushed(q, k)
    case Pop => if q == [] then q else q[1..]
    case Wait => DropPartial(q)
    case Reset => []
  }

  function QueueAfterAll(q: seq<KeyData>, es: seq<Event>): (r: seq<KeyData>)
    requires |q| < KEYPAD_EFI_KEY_MAX_COUNT
    decreases |es|
  {
    if es == [] then q else QueueAfterAll(QueueAfter(q, es[0]), es[1..])
  }

  /** Over any run of pushes, pops, waits and resets the queue holds the last arrivals in arrival order, at most
      255 of them, none of them delivered; keys are delivered in arrival order and never twice. */
  lemma {:induction false} RunsKeepOrder(r: Run, es: seq<Event>)
    requires RunOk(r)
    ensures RunOk(AfterAll(r, es))
    ensures QueueOf(AfterAll(r, es)) == QueueAfterAll(QueueOf(r), es)
    decreases |es|
  {
    if es != [] {
      EventKeepsRun(r, es[0]);
      EventOnQueue(r, es[0]);
      RunsKeepOrder(After(r, es[0]), es[1..]);
    }
  }

  lemma EventKeepsRun(r: Run, e: Event)
    requires RunOk(r)
    ensures RunOk(After(r, e))
  {
  }

  lemma PushOnQueue(arrivals: seq<KeyData>, first: nat, k: KeyData)
    requires first <= |arrivals| < first + KEYPAD_EFI_KEY_MAX_COUNT
    ensures var q := arrivals[first..];
            Pushed(q, k) == (arrivals + [k])[if |q| == KEYPAD_EFI_KEY_MAX_COUNT - 1 then first + 1 else first..]
  {
    assert (arrivals + [k])[first..] == arrivals[first..] + [k];
  }

  lemma EventOnQueue(r: Run, e: Event)
    requires RunOk(r)
    ensures QueueOf(After(r, e)) == QueueAfter(QueueOf(r), e)
  {
    if e.Push? {
      PushOnQueue(r.arrivals, r.first, e.k);
    }
  }

  lemma DropHead(q: seq<KeyData>)
    requires q != []
    ensures DropPartial(q) == if Partial(q[0]) then DropPartial(q[1..]) else q
  {
  }

  // ----- The ring -----

  /** The slot after slot i. */
  function Next(i: nat): (r: nat)
    requires i < KEYPAD_EFI_KEY_MAX_COUNT
    ensures r < KEYPAD_EFI_KEY_MAX_COUNT
    ensures r == if i + 1 == KEYPAD_EFI_KEY_MAX_COUNT then 0 else i + 1
  {
    (i + 1) % KEYPAD_EFI_KEY_MAX_COUNT
  }

  /** The keys from slot `head` up to and not including slot `tail`, going round the end of the buffer. */
  function Ring(s: seq<KeyData>, head: nat, tail: nat): (q: seq<KeyData>)
    requires |s| == KEYPAD_EFI_KEY_MAX_COUNT && head < |s| && tail < |s|
    ensures |q| == if head <= tail then tail - head else |s| - head + tail
  {
    if head <= tail then s[head..tail] else s[head..] + s[..tail]
  }

  lemma RingPop(s: seq<KeyData>, head: nat, tail: nat)
    requires |s| == KEYPAD_EFI_KEY_MAX_COUNT && head < |s| && tail < |s| && head != tail
    ensures Ring(s, head, tail) == [s[head]] + Ring(s, Next(head), tail)
  {
    if head < tail {
      assert s[head..tail] == [s[head]] + s[head + 1..tail];
    } else {
      var first, later, wrapped := [s[head]], s[head + 1..], s[..tail];
      assert s[head..] == first + later;
      assert (first + later) + wrapped == first + (later + wrapped);
      if head + 1 == |s| {
        assert later + wrapped == wrapped == s[0..tail];
      }
    }
  }

  lemma RingPush(s: seq<KeyData>, head: nat, tail: nat, k: KeyData)
    requires |s| == KEYPAD_EFI_KEY_MAX_COUNT && head < |s| && tail < |s| && Next(tail) != head
    ensures Ring(s[tail := k], head, Next(tail)) == Ring(s, head, tail) + [k]
  {
    var s' := s[tail := k];
    if head <= tail {
      assert s'[head..tail] == s[head..tail];
    } else {
      assert s'[head..] == s[head..];
      assert s'[..tail + 1] == s[..tail] + [k];
    }
  }

  class KeyQueue {
    const buffer: array<KeyData>
    var head: nat
    var tail: nat

    ghost predicate Valid()
      reads this
    {
      buffer.Length == KEYPAD_EFI_KEY_MAX_COUNT && head < KEYPAD_EFI_KEY_MAX_COUNT && tail < KEYPAD_EFI_KEY_MAX_COUNT
    }

    ghost function Contents(): (q: seq<KeyData>)
      reads this, buffer
      requires Valid()
      ensures |q| < KEYPAD_EFI_KEY_MAX_COUNT
    {
      Ring(buffer[..], head, tail)
    }

    constructor ()
      ensures Valid() && Contents() == [] && fresh(buffer)
    {
      buffer := new KeyData[KEYPAD_EFI_KEY_MAX_COUNT](_ => NO_KEY);
      head, tail := 0, 0;
    }

    method Clear()
      requires Valid()
      modifies this
      ensures Valid() && Contents() == []
    {
      head, tail := 0, 0;
    }

    /** The head is copied out before it is removed; the ring itself is not written. */
    method PopEfikeyBufHead() returns (status: Status, keyData: KeyData)
      requires Valid()
      modifies this
      ensures Valid()
      ensures old(Contents()) == [] ==> status == NotReady && Contents() == []
      ensures old(Contents()) != [] ==>
                status == Success && keyData == old(Contents())[0] && Contents() == old(Contents())[1..]
    {
      keyData := NO_KEY;
      if head == tail {
        return NotReady, keyData;
      }
      RingPop(buffer[..], head, tail);
      keyData := buffer[head];
      head := Next(head);
      status := Success;
    }

    method PushEfikeyBufTail(k: KeyData)
      requires Valid()
      modifies this, buffer
      ensures Valid() && Contents() == Pushed(old(Contents()), k)
    {
      if Next(tail) == head {
        var status, dropped := PopEfikeyBufHead();
      }
      RingPush(buffer[..], head, tail, k);
      ghost var was := buffer[..];
      buffer[tail] := k;
      assert buffer[..] == was[tail := k];
      tail := Next(tail);
    }

    /** A poll of the device: each key it reports is pushed. */
    method Poll(keys: seq<KeyData>)
      requires Valid()
      modifies this, buffer
      ensures Valid() && Contents() == PushedAll(old(Contents()), keys)
    {
      var i := 0;
      while i < |keys|
        invariant i <= |keys| && Valid()
        invariant PushedAll(Contents(), keys[i..]) == PushedAll(old(Contents()), keys)
      {
        assert keys[i..][0] == keys[i] && keys[i..][1..] == keys[i + 1..];
        PushEfikeyBufTail(keys[i]);
        i := i + 1;
      }
    }

    /** KeypadReadKeyStrokeWorker: poll, then pop unless the device has failed. */
    method KeypadReadKeyStrokeWorker(batch: seq<KeyData>, keypadErr: bool) returns (status: Status, keyData: KeyData)
      requires Valid()
      modifies this, buffer
      ensures Valid()
      ensures var polled := PushedAll(old(Contents()), batch);
              if keypadErr then status == DeviceError && Contents() == polled
              else if polled == [] then status == NotReady && Contents() == []
              else status == Success && keyData == polled[0] && Contents() == polled[1..]
    {
      Poll(batch);
      if keypadErr {
        return DeviceError, NO_KEY;
      }
      status, keyData := PopEfikeyBufHead();
    }

    /** One turn of the loop of KeypadReadKeyStroke; a partial key keeps it going. */
    method ReadTurn(batches: seq<seq<KeyData>>, n: nat, keypadErr: bool, ghost goal: Reading)
      returns (done: bool, status: Status, key: Key)
      requires Valid() && (keypadErr || Read(Contents(), BatchesFrom(batches, n)) == goal)
      modifies this, buffer
      ensures Valid()
      ensures keypadErr ==>
                done && status == DeviceError && Contents() == PushedAll(old(Contents()), BatchAt(batches, n))
      ensures !keypadErr && done ==> Reading(status, key, Contents()) == goal
      ensures !keypadErr && !done ==> Read(Contents(), BatchesFrom(batches, n + 1)) == goal
      ensures !done && n >= |batches| ==> |Contents()| < |old(Contents())|
    {
      ReadPolls(Contents(), batches, n);
      key := Key(0, 0);
      var keyData;
      status, keyData := KeypadReadKeyStrokeWorker(BatchAt(batches, n), keypadErr);
      done := status != Success || !Partial(keyData);
      if status == Success && done {
        key := Translated(keyData);
      }
    }

    /** KeypadReadKeyStroke; `keypadErr` is the device's error flag. */
    method KeypadReadKeyStroke(batches: seq<seq<KeyData>>, keypadErr: bool) returns (status: Status, key: Key)
      requires Valid()
      modifies this, buffer
      ensures Valid()
      ensures keypadErr ==>
                status == DeviceError && Contents() == PushedAll(old(Contents()), BatchAt(batches, 0))
      ensures !keypadErr ==> Reading(status, key, Contents()) == Read(old(Contents()), batches)
    {
      ghost var goal := Read(Contents(), batches);
      assert BatchesFrom(batches, 0) == batches;
      var n := 0;
      while true
        invariant Valid()
        invariant keypadErr ==> n == 0 && Contents() == old(Contents())
        invariant !keypadErr ==> Read(Contents(), BatchesFrom(batches, n)) == goal
        decreases if n < |batches| then |batches| - n else 0, |Contents()|
      {
        var done;
        done, status, key := ReadTurn(batches, n, keypadErr, goal);
        if done {
          return;
        }
        n := n + 1;
      }
    }

    /** KeypadWaitForKey: partial keys at the head are dropped, and the event is signalled if a key is left. */
    method KeypadWaitForKey(keys: seq<KeyData>, keypadErr: bool) returns (signalled: bool)
      requires Valid()
      modifies this, buffer
      ensures Valid()
      ensures keypadErr ==> !signalled && Contents() == PushedAll(old(Contents()), keys)
      ensures !keypadErr ==> Contents() == DropPartial(PushedAll(old(Contents()), keys))
      ensures !keypadErr ==> (signalled <==> Contents() != [])
    {
      Poll(keys);
      signalled := false;
      if !keypadErr {
        while head != tail
          invariant Valid() && !signalled
          invariant DropPartial(Contents()) == DropPartial(PushedAll(old(Contents()), keys))
          decreases |Contents()|
        {
          var keyData := buffer[head];
          RingPop(buffer[..], head, tail);
          DropHead(Contents());
          if !Partial(keyData) {
            signalled := true;
            return;
          }
          var status, dropped := PopEfikeyBufHead();
        }
      }
    }
  }
}
