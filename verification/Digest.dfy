/** The block-buffered streaming digest of soc/nxp/caam/sha.go against the hash
    engine it feeds. The compression function is a parameter. */
module Digest {
  import opened Bits
  import opened Wire

  // ---------------------------------------------------------------- the engine

  /** A request to the engine: data, and the initialise and finalise flags. */
  datatype Job = Job(data: seq<byte>, init: bool, term: bool)

  /** A hash as a chaining function over whole blocks and a finalisation of the
      last bytes with the total length (section 6.2 of FIPS 180-4 for SHA-256). */
  datatype Hash<!S> = Hash(iv: S, compress: (S, seq<byte>) -> S, finish: (S, seq<byte>, nat) -> seq<byte>)

  /** Absorb the whole blocks of `b`. */
  function Absorb<S>(h: Hash<S>, s: S, b: seq<byte>): S
    decreases |b|
  {
    if |b| < 64 then s else Absorb(h, h.compress(s, b[..64]), b[64..])
  }

  /** The hash of a message in one request. */
  function OneShot<S>(h: Hash<S>, m: seq<byte>): seq<byte> {
    h.finish(Absorb(h, h.iv, m), m[|m| / 64 * 64..], |m|)
  }

  /** The block size is 64 bytes: a block is one step of the chaining function, a
      shorter message is all finalisation. */
  lemma OneBlock<S>(h: Hash<S>, s: S, b: seq<byte>, m: seq<byte>)
    requires |b| == 64 && |m| < 64
    ensures Absorb(h, s, b) == h.compress(s, b) && OneShot(h, m) == h.finish(h.iv, m, |m|)
    ensures OneShot(h, b + m) == h.finish(h.compress(h.iv, b), m, 64 + |m|)
  {
    assert b[..64] == b && (b + m)[..64] == b && (b + m)[64..] == m;
    assert m[0..] == m && |b + m| / 64 * 64 == 64;
    assert Absorb(h, h.iv, b + m) == Absorb(h, h.compress(h.iv, b), m);
  }

  /** The engine's running state: chaining value and bytes absorbed. */
  datatype Engine<S> = Engine(state: S, count: nat)

  /** The engine state after the non-final jobs. */
  function Run<S>(h: Hash<S>, jobs: seq<Job>): Engine<S> {
    if jobs == [] then Engine(h.iv, 0)
    else
      var last := jobs[|jobs| - 1];
      var e := if last.init then Engine(h.iv, 0) else Run(h, jobs[..|jobs| - 1]);
      Engine(Absorb(h, e.state, last.data), e.count + |last.data|)
  }

  /** The digest the engine gives for a final job after `jobs`. */
  function Final<S>(h: Hash<S>, jobs: seq<Job>, last: Job): seq<byte>
    requires last.term
  {
    var e := if last.init then Engine(h.iv, 0) else Run(h, jobs);
    h.finish(Absorb(h, e.state, last.data), last.data[|last.data| / 64 * 64..], e.count + |last.data|)
  }

  function Data(jobs: seq<Job>): seq<byte> {
    if jobs == [] then [] else Data(jobs[..|jobs| - 1]) + jobs[|jobs| - 1].data
  }

  /** Non-final jobs as the engine needs them: non-empty whole blocks, only the
      first initialises, none finalises. */
  ghost predicate WellFormed(jobs: seq<Job>) {
    forall i :: 0 <= i < |jobs| ==>
      |jobs[i].data| > 0 && |jobs[i].data| % 64 == 0 && (jobs[i].init <==> i == 0) && !jobs[i].term
  }

  lemma {:induction false} AbsorbAppend<S>(h: Hash<S>, s: S, a: seq<byte>, b: seq<byte>)
    requires |a| % 64 == 0
    ensures Absorb(h, s, a + b) == Absorb(h, Absorb(h, s, a), b)
    decreases |a|
  {
    if |a| < 64 {
      assert a == [] && a + b == b;
    } else {
      assert (a + b)[..64] == a[..64] && (a + b)[64..] == a[64..] + b;
      AbsorbAppend(h, h.compress(s, a[..64]), a[64..], b);
    }
  }

  /** Well-formed jobs leave the engine as one pass over their data would. */
  lemma {:induction false} RunIsAbsorb<S>(h: Hash<S>, jobs: seq<Job>)
    requires WellFormed(jobs)
    ensures Run(h, jobs) == Engine(Absorb(h, h.iv, Data(jobs)), |Data(jobs)|) && |Data(jobs)| % 64 == 0
    decreases |jobs|
  {
    if jobs != [] {
      var front, last := jobs[..|jobs| - 1], jobs[|jobs| - 1];
      RunIsAbsorb(h, front);
      AbsorbAppend(h, h.iv, Data(front), last.data);
      if last.init { assert front == [] && Data(jobs) == last.data; }
    }
  }

  /** The engine's digest over a well-formed run is the one-shot hash of the
      concatenated data. */
  lemma StreamingIsOneShot<S>(h: Hash<S>, jobs: seq<Job>, last: Job)
    requires WellFormed(jobs) && (last.init <==> jobs == []) && last.term
    ensures Final(h, jobs, last) == OneShot(h, Data(jobs) + last.data)
  {
    RunIsAbsorb(h, jobs);
    AbsorbAppend(h, h.iv, Data(jobs), last.data);
    var m := Data(jobs) + last.data;
    Tail(Data(jobs), last.data);
    if last.init { assert m == last.data; }
  }

  /** Whole blocks in front do not change the bytes after the last whole block. */
  lemma Tail(a: seq<byte>, b: seq<byte>)
    requires |a| % 64 == 0
    ensures (a + b)[|a + b| / 64 * 64..] == b[|b| / 64 * 64..]
  {
    RemainderUnique(|a + b|, |a| / 64 + |b| / 64, |b| % 64, 64);
    assert (a + b)[|a| + |b| / 64 * 64..] == b[|b| / 64 * 64..];
  }

  // ---------------------------------------------------------------- the digest

  /** The package lock: one digest at a time may use the engine. */
  class Channel {
    var locked: bool
    /** The digest that took it. */
    ghost var owner: object?

    constructor ()
      ensures !locked
    {
      locked, owner := false, null;
    }
  }

  /** `Fatal` is the unrecoverable error of unlocking a lock that is not locked. */
  datatype SumResult = Summed(out: seq<byte>) | HardwareError | Fatal

  /** A digest instance. `jobs` is what the engine was given so far, `message`
      what was written; `failed` records a hardware error, `ended` a call of `Sum`. */
  class Digest<S(!new)> {
    const hash: Hash<S>
    const channel: Channel
    var buf: seq<byte>
    var init: bool
    var sum: seq<byte>

    var jobs: seq<Job>
    ghost var message: seq<byte>
    var failed: bool
    ghost var ended: bool

    /** At most one block is buffered (a whole block may be), and without an error
        what the engine was given, well formed, followed by the buffer, is the
        message. A digest holds the lock until `Sum` is called. */
    ghost predicate Valid()
      reads this, channel
    {
      && (forall s, b, n :: |hash.finish(s, b, n)| == 32)
      && (if ended then channel.owner != this else channel.locked && channel.owner == this && sum == [])
      && |buf| <= 64
      && (!failed && sum == [] ==> !ended && InStep())
      && (!failed && sum != [] ==> sum == OneShot(hash, message))
    }

    ghost predicate InStep()
      reads this
    {
      WellFormed(jobs) && (init <==> jobs == []) && Data(jobs) + buf == message
    }

    /** A digest of a channel that was free. */
    constructor (hash: Hash<S>, channel: Channel)
      requires forall s, b, n :: |hash.finish(s, b, n)| == 32
      requires !channel.locked
      modifies channel
      ensures Valid() && this.hash == hash && this.channel == channel && message == [] && sum == [] && !failed && !ended
    {
      this.hash, this.channel := hash, channel;
      buf, init, sum := [], true, [];
      jobs, message, failed, ended := [], [], false, false;
      new;
      channel.locked, channel.owner := true, this;
    }

    /** Hand whole blocks to the engine. */
    method Process(data: seq<byte>) returns (ok: bool)
      requires |data| > 0 && |data| % 64 == 0
      modifies this`jobs, this`init, this`failed
      ensures ok && old(WellFormed(jobs) && (init <==> jobs == [])) ==>
          WellFormed(jobs) && !init && jobs != [] && Data(jobs) == old(Data(jobs)) + data
      ensures failed == (old(failed) || !ok)
      ensures ok ==> jobs == old(jobs) + [Job(data, old(init), false)] && !init
    {
      ok := *;
      if !ok {
        failed := true;
        return;
      }
      assert (jobs + [Job(data, init, false)])[..|jobs|] == jobs;
      jobs := jobs + [Job(data, init, false)];
      init := false;
    }

    /** Add data to the running hash; refused once the sum was taken. */
    method Write(p: seq<byte>) returns (n: nat, ok: bool)
      requires Valid()
      modifies this`buf, this`init, this`jobs, this`message, this`failed
      ensures Valid()
      ensures old(sum) != [] ==> !ok && message == old(message) && failed == old(failed)
      ensures ok ==> n == |p| && message == old(message) + p && failed == old(failed)
      ensures !ok ==> n == 0
      ensures !ok && old(sum) == [] ==> failed
      ensures old(sum) == [] && |old(buf)| + |p| < 64 ==> ok && buf == old(buf) + p && jobs == old(jobs)
      ensures ok && |old(buf)| + |p| >= 64 ==>
          var rest := |old(buf)| + |p| - 64;
          && |buf| == (if rest > 64 then rest % 64 else rest)
          && |jobs| == |old(jobs)| + (if rest > 64 then 2 else 1)
    {
      hide WellFormed, Data, OneShot;
      if |sum| != 0 {
        return 0, false;
      }
      if |buf| + |p| < 64 {
        assert Data(jobs) + (buf + p) == Data(jobs) + buf + p;
        buf := buf + p;
        message := message + p;
        return |p|, true;
      }
      var cut := 64 - |buf|;
      ghost var whole0 := Data(jobs) + buf;
      buf := buf + p[..cut];
      var rest := p[cut..];
      assert Data(jobs) + buf == whole0 + p[..cut];
      ok := Process(buf);
      if !ok {
        return 0, false;
      }
      ghost var data := Data(jobs);
      if |rest| > 64 {
        var whole := |rest| - |rest| % 64;
        Whole(|rest|);
        ok := Process(rest[..whole]);
        if !ok {
          return 0, false;
        }
        assert data + rest[..whole] + rest[whole..] == data + rest;
        rest := rest[whole..];
      }
      assert !failed ==> Data(jobs) + rest == data + p[cut..];
      assert !failed ==> data + p[cut..] == old(message) + p by { assert p == p[..cut] + p[cut..]; }
      buf := rest;
      message := message + p;
      n := |p|;
    }

    /** Finish: without an error the result is the one-shot hash of everything
        written, however it was split, and stays so when asked again.

        The first call, successful or not, gives up the lock of this digest. A
        further call after a failed one unlocks again: fatal when nobody holds
        the lock, and otherwise it gives up the lock of another digest. */
    method Sum(prefix: seq<byte>) returns (r: SumResult)
      requires Valid()
      modifies this`sum, this`failed, this`ended, channel
      ensures r != Fatal ==> Valid() && ended
      ensures message == old(message)
      ensures r.Summed? ==> sum != [] && r.out == prefix + sum
      ensures r.Summed? && !failed ==> r.out == prefix + OneShot(hash, message)
      ensures old(sum) != [] ==>
          r.Summed? && failed == old(failed) && channel.locked == old(channel.locked)
              && channel.owner == old(channel.owner)
      ensures r == HardwareError ==> failed && sum == []
      ensures old(init && buf == [] && sum == []) && r != Fatal ==> r.Summed?
      ensures r == Fatal <==> old(ended && sum == [] && !channel.locked)
      ensures old(sum) == [] && r != Fatal ==> !channel.locked && (old(channel.owner) == this <==> !old(ended))
    {
      if |sum| != 0 {
        ended := true;
        return Summed(prefix + sum);
      }
      assert |hash.finish(hash.iv, [], 0)| == 32;
      if !channel.locked {
        return Fatal;
      }
      ended := true;
      channel.locked, channel.owner := false, null;
      if init && buf == [] {
        sum := OneShot(hash, []);
        assert !failed ==> message == [];
      } else {
        var ok: bool := *;
        if !ok {
          failed := true;
          return HardwareError;
        }
        if failed {
          sum := AnyDigest();
        } else {
          StreamingIsOneShot(hash, jobs, Job(buf, init, true));
          sum := Final(hash, jobs, Job(buf, init, true));
        }
      }
      r := Summed(prefix + sum);
    }
  }

  /** What the engine gives after an error: any 32 bytes. */
  method AnyDigest() returns (b: seq<byte>)
    ensures |b| == 32
  {
    b := *;
    if |b| != 32 {
      b := seq(32, _ => 0);
    }
  }

  /** `New256`: refused exactly while the lock is held. */
  method New256<S(!new)>(hash: Hash<S>, channel: Channel) returns (d: Digest?<S>)
    requires forall s, b, n :: |hash.finish(s, b, n)| == 32
    modifies channel
    ensures d == null <==> old(channel.locked)
    ensures d == null ==> channel.locked && channel.owner == old(channel.owner)
    ensures d != null ==> fresh(d) && d.Valid() && d.channel == channel && channel.owner == d
    ensures d != null ==> d.hash == hash && d.message == [] && d.sum == [] && !d.failed && !d.ended
  {
    d := null;
    if !channel.locked {
      d := new Digest(hash, channel);
    }
  }

  /** While every digest is as `Valid` says, at most one has not been ended. */
  lemma OneDigest<S(!new)>(d: Digest<S>, e: Digest<S>)
    requires d.Valid() && e.Valid() && d.channel == e.channel && !d.ended && !e.ended
    ensures d == e
  {
  }

  /** A digest whose `Sum` failed is summed again while another one is in use:
      its lock is given up, and a third digest starts beside it. */
  method SumTwiceRun<S(!new)>(hash: Hash<S>, channel: Channel, x: byte) returns (failure: bool, both: bool)
    requires !channel.locked && forall s, b, n :: |hash.finish(s, b, n)| == 32
    modifies channel
    ensures failure ==> both
  {
    hide WellFormed, Data, OneShot;
    failure, both := false, false;
    var a := New256(hash, channel);
    var n, ok := a.Write([x]);
    var r := a.Sum([]);
    if r != HardwareError {
      return;
    }
    failure := true;
    var b := New256(hash, channel);
    r := a.Sum([]);
    var c := New256(hash, channel);
    assert b != null && c != null && b != c && !b.ended && !c.ended;
    both := b != null && c != null && b != c;
  }

  lemma Whole(n: nat)
    requires n > 64
    ensures 0 < n - n % 64 <= n && (n - n % 64) % 64 == 0 && n % 64 < 64
  {
  }
}
