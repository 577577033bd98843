/**
 The DMA receive ring: the hardware fills a circular buffer and reloads its
 counter at each wrap; the wrap counter is kept by an interrupt that may lag.
 An adversary moves both between any two volatile accesses of the reader, and
 may overrun it.  Assumed: no UART error, no second wrap before the first
 one's interrupt has run, and a reader less than 2^32 octets behind, which is
 as far as its counters go.
 */
module DmaRing {
  import opened Bytes
  import Timing
  import opened RingSlots

  const SIZE: nat := 8192
  const WORD: nat := 0x1_0000_0000
  const LIMIT: nat := WORD - 2 * SIZE
  const RETRIES: nat := 100
  const WINDOW: nat := 2 * (RETRIES + 1)

  datatype Event = Byte(b: byte) | WrapInterrupt

  /** A sample of the counters: the total the DMA stood at, and how many wraps were counted then. */
  datatype Look = Look(at: nat, counted: nat) {
    /** The total that the counters show. */
    function Seen(): nat {
      counted * SIZE + at % SIZE
    }

    /** The interrupt of the last wrap had not run yet. */
    predicate Lags() {
      counted < at / SIZE
    }

    /** A reader that stands there sees no overflow. */
    predicate Fits(read: nat) {
      read <= Seen() <= read + SIZE
    }
  }

  /** A sample taken while the total and the count of wraps went from one pair of numbers to another. */
  predicate Taken(look: Look, low: nat, high: nat, first: nat, last: nat) {
    low <= look.at <= high && first <= look.counted <= last && look.counted <= look.at / SIZE <= look.counted + 1
  }

  /** Samples that all show an overflow. */
  predicate Misfits(looks: seq<Look>, read: nat, low: nat, high: nat, first: nat, last: nat) {
    forall i :: 0 <= i < |looks| ==> Taken(looks[i], low, high, first, last) && !looks[i].Fits(read)
  }

  lemma SeenIs(look: Look)
    requires look.counted <= look.at / SIZE <= look.counted + 1
    ensures look.Lags() ==> look.at >= SIZE
    ensures look.Seen() == if look.Lags() then look.at - SIZE else look.at
  {
  }

  /**
   While the writer is no buffer ahead, a sample shows an overflow exactly if the interrupt of the
   wrap that follows the reader's position has not run yet.
   */
  lemma MisfitLags(look: Look, read: nat)
    requires look.counted <= look.at / SIZE <= look.counted + 1
    requires read <= look.at <= read + SIZE && read / SIZE <= look.counted
    ensures !look.Fits(read) <==> look.Lags() && look.at < read + SIZE
    ensures !look.Fits(read) ==> look.counted == read / SIZE
  {
    SeenIs(look);
  }

  // ----- how soon the interrupt runs -----

  function Drop<T>(s: seq<T>, n: nat): seq<T> {
    if n <= |s| then s[n..] else []
  }

  /** The interrupt gets to run at the i-th access. */
  predicate Serves(script: seq<seq<Event>>, i: nat) {
    i < |script| && WrapInterrupt in script[i]
  }

  /** It gets to run between any access and the end of the 101 samples that begin with it. */
  predicate Prompt(script: seq<seq<Event>>) {
    forall k: nat :: k + WINDOW <= |script| ==> ServesWithin(script, k)
  }

  predicate ServesWithin(script: seq<seq<Event>>, k: nat) {
    exists i: nat :: k < i < k + WINDOW && Serves(script, i)
  }

  predicate Suffix(s: seq<seq<Event>>, t: seq<seq<Event>>) {
    |s| <= |t| && s == t[|t| - |s|..]
  }

  lemma PromptLater(s: seq<seq<Event>>, t: seq<seq<Event>>)
    requires Suffix(s, t) && Prompt(t)
    ensures Prompt(s)
  {
    var d := |t| - |s|;
    forall k: nat | k + WINDOW <= |s| ensures ServesWithin(s, k) {
      assert ServesWithin(t, k + d);
      var i: nat :| k + d < i < k + d + WINDOW && Serves(t, i);
      assert Serves(s, i - d);
    }
  }

  /**
   What a read goes through: whether anything was discarded and the samples that first made it so, the
   first and the last deciding sample, whether it waited in between and ran out of time, and the
   position it delivers from.
   */
  datatype Course = Course(discarded: bool, missed: seq<Look>, first: Look, last: Look,
                           waited: bool, timedOut: bool, from: nat)

  /** A sample that used two accesses; if the interrupt ran at one of them, the wraps before it are counted. */
  predicate OnePass(before: seq<seq<Event>>, after: seq<seq<Event>>, low: nat, look: Look, serviced: nat) {
    && after == Drop(before, 2)
    && (Serves(before, 0) ==> serviced >= low / SIZE)
    && (Serves(before, 1) ==> serviced >= look.at / SIZE)
  }

  /** Samples taken one right after the other while no wrap was counted. */
  predicate Pursued(before: seq<seq<Event>>, after: seq<seq<Event>>, looks: seq<Look>, first: nat, serviced: nat) {
    looks != [] && serviced == first ==>
      && after == Drop(before, 2 * |looks|)
      && forall i :: 1 <= i < 2 * |looks| && Serves(before, i) ==> serviced >= looks[0].at / SIZE
  }

  lemma PursuedNext(script: seq<seq<Event>>, before: seq<seq<Event>>, after: seq<seq<Event>>, looks: seq<Look>, look: Look,
                    first: nat, wasServiced: nat, serviced: nat, low: nat)
    requires first <= wasServiced <= serviced && low <= look.at && (looks == [] ==> before == script)
    requires looks != [] ==> Pursued(script, before, looks, first, wasServiced) && looks[0].at <= low
    requires serviced == wasServiced ==> OnePass(before, after, low, look, serviced)
    ensures Pursued(script, after, looks + [look], first, serviced)
  {
    var n := 2 * |looks|;
    var more := looks + [look];
    if serviced == first {
      assert Serves(before, 0) == Serves(script, n) && Serves(before, 1) == Serves(script, n + 1);
      forall i | 1 <= i < n + 2 && Serves(script, i) ensures serviced >= more[0].at / SIZE {
        if i >= n && looks != [] {
          AtLeast(looks[0].at, low);
          if i == n + 1 { AtLeast(low, look.at); }
        }
      }
    }
  }

  lemma AtLeast(a: nat, b: nat)
    ensures a <= b ==> a / SIZE <= b / SIZE
  {
  }

  /** One and the same wrap, not counted at any of these samples. */
  predicate OneWrapUncounted(looks: seq<Look>, read: nat) {
    forall i :: 0 <= i < |looks| ==> looks[i].Lags() && looks[i].counted == read / SIZE && looks[i].at < read + SIZE
  }

  /** What 101 samples that show an overflow come from if there is none. */
  lemma NoOverrun(before: seq<seq<Event>>, after: seq<seq<Event>>, looks: seq<Look>, read: nat, low: nat, high: nat,
                  first: nat, serviced: nat)
    requires |looks| == RETRIES + 1 && Misfits(looks, read, low, high, first, serviced)
    requires read <= low && high <= read + SIZE && read / SIZE <= first && looks[RETRIES].counted == serviced
    requires Pursued(before, after, looks, first, serviced)
    ensures OneWrapUncounted(looks, read) && first == read / SIZE && high / SIZE > first
    ensures Prompt(before) ==> after == [] && serviced < high / SIZE
  {
    forall i | 0 <= i < |looks| ensures looks[i].Lags() && looks[i].counted == read / SIZE && looks[i].at < read + SIZE {
      MisfitLags(looks[i], read);
    }
    AtLeast(looks[0].at, high);
    assert forall i: nat :: 0 < i < WINDOW ==> !Serves(before, i);
    if WINDOW <= |before| {
      assert !ServesWithin(before, 0);
    }
  }

  /** Where a reader began. */
  datatype Start = Start(read: nat, written: seq<byte>, serviced: nat, overflow: nat, script: seq<seq<Event>>)

  /**
   The interrupt was left waiting: through some 202 accesses in a row, or with a wrap uncounted when
   nothing more happens.
   */
  predicate Neglected(script: seq<seq<Event>>, end: Start) {
    Prompt(script) ==> end.script == [] && end.serviced < |end.written| / SIZE
  }

  /** The course of a read that began in one state, in a later one. */
  predicate Follows(c: Course, s0: Start, s1: Start) {
    && Taken(c.first, |s0.written|, |s1.written|, s0.serviced, s1.serviced)
    && Taken(c.last, |s0.written|, |s1.written|, s0.serviced, s1.serviced)
    && c.from <= c.last.Seen() <= c.from + SIZE && Suffix(s1.script, s0.script)
    && (!c.discarded ==> c.from == s0.read && s1.overflow == s0.overflow)
    && (c.discarded ==>
          |c.missed| == RETRIES + 1 && s1.overflow > s0.overflow
          && Misfits(c.missed, s0.read, |s0.written|, |s1.written|, s0.serviced, s1.serviced))
    && (c.discarded && |s1.written| <= s0.read + SIZE ==>
          OneWrapUncounted(c.missed, s0.read) && Neglected(s0.script, s1))
    && (c.discarded && !c.waited ==> c.from == c.last.Seen())
    && (c.waited ==> c.discarded || c.first.Seen() == s0.read)
    && (c.timedOut ==> c.waited)
  }

  lemma FollowsFacts(c: Course, s0: Start, s1: Start)
    requires Follows(c, s0, s1)
    ensures |s0.written| <= c.last.at <= |s1.written| && Suffix(s1.script, s0.script)
    ensures c.from <= c.last.Seen() <= c.from + SIZE && c.last.Seen() / SIZE <= s1.serviced && c.last.Seen() <= |s1.written|
    ensures !c.discarded ==> c.from == s0.read && s1.overflow == s0.overflow
    ensures c.discarded && |s1.written| <= s0.read + SIZE ==> Neglected(s0.script, s1)
    ensures c.discarded && !c.waited ==> c.from == c.last.Seen()
    ensures c.timedOut ==> c.waited
  {
    hide Prompt, OneWrapUncounted, Suffix, Neglected;
    SeenIs(c.last);
  }

  /** One more question after a course so far. */
  lemma Continued(c0: Course, c: Course, s0: Start, s1: Start, s2: Start, discarded: bool, looks: seq<Look>)
    requires Follows(c0, s0, s1) && GoesOn(s1, s2) && c0.from == s1.read && c0.waited
    requires Taken(c.last, |s1.written|, |s2.written|, s1.serviced, s2.serviced)
    requires s2.read <= c.last.Seen() <= s2.read + SIZE
    requires !discarded ==> s2.read == s1.read && s2.overflow == s1.overflow
    requires discarded ==> s2.overflow == s1.overflow + 1 && |looks| == RETRIES + 1
                           && Misfits(looks, s1.read, |s1.written|, |s2.written|, s1.serviced, s2.serviced)
    requires discarded && |s2.written| <= s1.read + SIZE ==> OneWrapUncounted(looks, s1.read) && Neglected(s1.script, s2)
    requires c == c0.(last := c.last, from := s2.read, discarded := c0.discarded || discarded,
                      missed := if discarded && !c0.discarded then looks else c0.missed)
    ensures Follows(c, s0, s2)
  {
    hide OneWrapUncounted, Look.Fits, Look.Seen, Prompt;
    if Prompt(s0.script) { PromptLater(s1.script, s0.script); }
  }

  /** The hardware goes on, or has come to its end. */
  predicate GoesOn(s1: Start, s2: Start) {
    && s1.written <= s2.written && s1.serviced <= s2.serviced && Suffix(s2.script, s1.script)
    && (s1.script == [] ==> s2.script == [] && s2.serviced == s1.serviced && s2.written == s1.written)
  }

  lemma GoesOnFacts(s0: Start, s1: Start, s2: Start)
    requires GoesOn(s0, s1) && GoesOn(s1, s2)
    ensures GoesOn(s0, s2) && s1.written <= s2.written && s1.serviced <= s2.serviced
    ensures s0.written <= s1.written && s0.serviced <= s1.serviced
  {
  }

  lemma Further(s0: Start, s1: Start)
    requires GoesOn(s0, s1)
    ensures s0.written <= s1.written && s0.serviced <= s1.serviced
  {
  }

  lemma ReaderMoves(s0: Start, s1: Start, s2: Start)
    requires GoesOn(s0, s1) && s2 == s1.(read := s2.read)
    ensures GoesOn(s0, s2) && s0.written <= s2.written
  {
  }

  lemma FollowsOn(c: Course, s0: Start, s1: Start, s2: Start)
    requires Follows(c, s0, s1) && GoesOn(s1, s2) && s2.overflow == s1.overflow
    ensures Follows(c, s0, s2)
  {
    hide Prompt, OneWrapUncounted, Look.Fits, Look.Seen;
  }

  class DmaUart {
    const buffer: array<byte>
    var rxWraps: nat
    var rxTotalRead: nat
    var overflowCount: nat
    var ndtr: nat

    // What has really happened, without any counter wrapping.
    var written: seq<byte>
    var serviced: nat
    var read: nat
    var delivered: seq<byte>

    var script: seq<seq<Event>>   // what happens at each volatile access

    ghost predicate Valid()
      reads this, buffer
    {
      && buffer.Length == SIZE && Mirror(buffer[..], written, |written| - SIZE, SIZE)
      && read <= |written| <= read + LIMIT + SIZE
      && serviced <= |written| / SIZE <= serviced + 1
      && read / SIZE <= serviced
      && rxWraps == serviced % WORD && rxTotalRead == read % WORD
      && ndtr == SIZE - |written| % SIZE
    }

    /** Everything delivered so far is what was written, from the first octet on. */
    ghost predicate Intact()
      reads this
    {
      read <= |written| && delivered == written[..read]
    }

    constructor (script: seq<seq<Event>>)
      ensures Valid() && Intact() && delivered == [] && written == [] && overflowCount == 0 && fresh(buffer)
      ensures this.script == script && read == 0 && serviced == 0
    {
      buffer := new byte[SIZE];
      rxWraps, rxTotalRead, overflowCount, ndtr := 0, 0, 0, SIZE;
      written, serviced, read, delivered := [], 0, 0, [];
      this.script := script;
    }

    // ----- the hardware and its interrupt -----

    /** The assumptions on the writer: no second wrap is pending, and the reader is not 2^32 octets behind. */
    ghost predicate MayWrite()
      reads this`written, this`serviced, this`read
    {
      |written| < read + LIMIT && (|written| + 1) / SIZE <= serviced + 1
    }

    /** The DMA stores one octet; HAL_UART_RxCpltCallback counts a wrap. */
    method Happen(e: Event)
      requires Valid()
      modifies this`rxWraps, this`ndtr, this`written, this`serviced, buffer
      ensures Valid() && Grown(old(written))
      ensures e.Byte? ==> serviced == old(serviced)
                          && written == old(written) + (if old(MayWrite()) then [e.b] else [])
      ensures e.WrapInterrupt? ==> written == old(written)
                                   && serviced == Min(old(serviced) + 1, |written| / SIZE)
    {
      hide DmaUart.Valid, Grown, MayWrite;
      match e {
        case Byte(b) => StoreByte(b);
        case WrapInterrupt => CountWrap();
      }
    }

    method StoreByte(b: byte)
      requires Valid()
      modifies this`ndtr, this`written, buffer
      ensures Valid() && Grown(old(written)) && written == old(written) + (if old(MayWrite()) then [b] else [])
    {
      hide Mirror;
      if |written| < read + LIMIT && (|written| + 1) / SIZE <= serviced + 1 {
        MirrorNext(buffer[..], written, |written| - SIZE, SIZE, b);
        CounterNext(|written|);
        ghost var slots := buffer[..];
        buffer[SIZE - ndtr] := b;
        assert buffer[..] == slots[|written| % SIZE := b];
        ndtr := if ndtr == 1 then SIZE else ndtr - 1;
        written := written + [b];
      }
    }

    method CountWrap()
      requires Valid()
      modifies this`rxWraps, this`serviced
      ensures Valid() && Grown(written) && serviced == Min(old(serviced) + 1, |written| / SIZE)
    {
      hide Mirror;
      if serviced < |written| / SIZE {
        NextWord(serviced);
        serviced := serviced + 1;
        rxWraps := (rxWraps + 1) % WORD;
      }
    }

    static lemma NextWord(n: nat)
      ensures (n % WORD + 1) % WORD == (n + 1) % WORD
    {
    }

    /** How the DMA counter goes on. */
    static lemma CounterNext(total: nat)
      ensures (total + 1) % SIZE == if total % SIZE == SIZE - 1 then 0 else total % SIZE + 1
      ensures total / SIZE <= (total + 1) / SIZE
    {
    }

    /** Octets are only added, and none while the reader is at the limit. */
    ghost predicate Grown(before: seq<byte>)
      reads this`written, this`read
    {
      before <= written && (written == before || |written| <= read + LIMIT)
    }

    /** Neither the hardware nor the interrupt has done anything. */
    twostate predicate Still()
      reads this, buffer
    {
      && written == old(written) && serviced == old(serviced) && script == old(script)
      && buffer[..] == old(buffer[..])
    }

    /** What a sample taken now sees. */
    function Now(): Look
      reads this`written, this`serviced
    {
      Look(|written|, serviced)
    }

    method Interfere()
      requires Valid()
      modifies this`rxWraps, this`ndtr, this`written, this`serviced, this`script, buffer
      ensures Valid() && Grown(old(written)) && serviced >= old(serviced)
      ensures old(script) == [] ==> Still()
      ensures script == Drop(old(script), 1) && GoesOn(old(Begin()), Begin())
      ensures Serves(old(script), 0) ==> serviced >= |old(written)| / SIZE
    {
      hide Mirror;
      if script != [] {
        var events := script[0];
        script := script[1..];
        for i := 0 to |events|
          invariant Valid() && Grown(old(written)) && serviced >= old(serviced)
          invariant WrapInterrupt in events[..i] ==> serviced >= |old(written)| / SIZE
          invariant script == Drop(old(script), 1)
        {
          Happen(events[i]);
        }
      }
    }

    // ----- the counters -----

    /**
     getDmaWriteCount.  The count is that of one moment at which the interrupt had counted just as
     many wraps as when the call returns; if that was also so when it began, it took one pass.
     */
    method GetDmaWriteCount() returns (count: nat, look: Look)
      requires Valid()
      modifies this`rxWraps, this`ndtr, this`written, this`serviced, this`script, buffer
      ensures Valid() && Grown(old(written)) && GoesOn(old(Begin()), Begin())
      ensures Taken(look, |old(written)|, |written|, old(serviced), serviced) && look.counted == serviced
      ensures count == look.Seen() % WORD
      ensures serviced == old(serviced) ==> OnePass(old(script), script, |old(written)|, look, serviced)
      ensures old(script) == [] ==> Still() && look == Now()
    {
      hide Mirror, GoesOn, OnePass;
      ghost var s0 := Begin();
      var wraps, n;
      ghost var before;
      wraps, n, look, before := ReadCounters();
      while wraps != rxWraps
        invariant Valid() && Grown(old(written)) && GoesOn(old(Begin()), Begin())
        invariant Taken(look, |old(written)|, |written|, old(serviced), serviced) && old(serviced) <= before <= serviced
        invariant read / SIZE <= before + 1 && wraps == before % WORD
        invariant before == serviced ==> look.counted == before && n == SIZE - look.at % SIZE
        invariant serviced == old(serviced) ==> OnePass(old(script), script, |old(written)|, look, serviced)
        invariant old(script) == [] ==> Still() && look == Now() && before == serviced
        decreases (read + LIMIT + SIZE) / SIZE - before
      {
        SameWraps(before, serviced, read);
        ghost var s1 := Begin();
        wraps, n, look, before := ReadCounters();
        GoesOnFacts(s0, s1, Begin());
      }
      SameWraps(before, serviced, read);
      count := (wraps * SIZE + (SIZE - n)) % WORD;
      CountIs(before, look.at);
    }

    /** One pass of the loop: the wrap counter, the DMA counter, and whatever happens around them. */
    method ReadCounters() returns (wraps: nat, n: nat, look: Look, ghost before: nat)
      requires Valid()
      modifies this`rxWraps, this`ndtr, this`written, this`serviced, this`script, buffer
      ensures Valid() && Grown(old(written)) && GoesOn(old(Begin()), Begin())
      ensures Taken(look, |old(written)|, |written|, old(serviced), serviced)
      ensures old(serviced) == before && read / SIZE <= before + 1 && wraps == before % WORD
      ensures before == serviced ==> look.counted == before && n == SIZE - look.at % SIZE
      ensures OnePass(old(script), script, |old(written)|, look, serviced)
      ensures old(script) == [] ==> Still() && look == Now()
    {
      hide Mirror;
      wraps, before := rxWraps, serviced;
      Interfere();
      n, look := ndtr, Now();
      Interfere();
    }

    /** Over less than 2^32 octets, equal counters mean that no interrupt ran in between. */
    static lemma SameWraps(before: nat, now: nat, read: nat)
      requires before <= now <= (read + LIMIT + SIZE) / SIZE && read / SIZE <= before + 1
      ensures before % WORD == now % WORD <==> before == now
    {
    }

    static lemma CountIs(counted: nat, at: nat)
      ensures ((counted % WORD) * SIZE + at % SIZE) % WORD == (counted * SIZE + at % SIZE) % WORD
    {
      var q := counted / WORD;
      assert counted * SIZE + at % SIZE == ((counted % WORD) * SIZE + at % SIZE) + q * SIZE * WORD;
      WholeWords((counted % WORD) * SIZE + at % SIZE, q * SIZE);
    }

    static lemma {:induction false} WholeWords(x: nat, k: nat)
      ensures (x + k * WORD) % WORD == x % WORD
    {
      if k > 0 {
        WholeWords(x, k - 1);
        assert x + k * WORD == (x + (k - 1) * WORD) + WORD;
      }
    }

    /** The difference of the counters shows an overflow exactly if the sample does, and else is exact. */
    static lemma Difference(look: Look, read: nat)
      requires read <= look.at <= read + LIMIT + SIZE && look.counted <= look.at / SIZE <= look.counted + 1
      ensures var available := (look.Seen() % WORD + WORD - read % WORD) % WORD;
        && (available <= SIZE <==> look.Fits(read))
        && (look.Fits(read) ==> available == look.Seen() - read)
    {
      SeenIs(look);
      var c := look.Seen();
      var qc, qr := c / WORD, read / WORD;
      assert c == qc * WORD + c % WORD && read == qr * WORD + read % WORD;
      assert qc == qr || qc == qr + 1 || qc + 1 == qr;
    }

    /**
     getRxBufferAvailable.  The last sample decides: what it shows behind the reader is accepted, or,
     after 101 samples that show an overflow, the reader moves to it.  Without an overrun that takes
     one wrap whose interrupt has run at none of them.
     */
    method GetRxBufferAvailable() returns (available: nat, ghost discarded: bool, ghost looks: seq<Look>, last: Look)
      requires Valid()
      modifies this`rxWraps, this`ndtr, this`written, this`serviced, this`script, this`rxTotalRead,
               this`overflowCount, this`read, buffer
      ensures Valid() && old(written) <= written && GoesOn(old(Begin()), Begin())
      ensures Taken(last, |old(written)|, |written|, old(serviced), serviced) && last.counted == serviced
      ensures available == last.Seen() - read <= SIZE
      ensures Misfits(looks, old(read), |old(written)|, |written|, old(serviced), serviced)
      ensures discarded <==> |looks| == RETRIES + 1
      ensures !discarded ==> read == old(read) && overflowCount == old(overflowCount)
      ensures discarded ==> read == last.Seen() && overflowCount == old(overflowCount) + 1
      // Discarding makes octets unread again exactly if the interrupt lagged and the writer was no
      // buffer ahead, and it skips some exactly if the counters show more than the reader had read.
      ensures discarded ==> (read < old(read) <==> last.Lags() && last.at < old(read) + SIZE)
      ensures discarded ==> (read > old(read) <==> last.at > old(read) + if last.Lags() then SIZE else 0)
      // An overrun is accepted exactly if the interrupt lagged.
      ensures !discarded ==> (last.at > read + SIZE <==> last.Lags() && available > 0)
      ensures discarded && |written| <= old(read) + SIZE ==>
        OneWrapUncounted(looks, old(read)) && Neglected(old(script), Begin())
      ensures |written| <= old(read) + SIZE && |written| / SIZE == old(serviced) ==> !discarded
      ensures old(script) == [] ==> Still() && last == Now() && (discarded <==> !last.Fits(old(read)))
    {
      hide Mirror, DmaUart.Valid, Look.Fits, Look.Lags, Look.Seen, Misfits, Pursued, GoesOn, OneWrapUncounted, Prompt;
      ghost var s0 := Begin();
      StartFacts(s0);
      looks := [];
      available, last := Pending();
      GoesOnFacts(s0, s0, Begin());
      SameLooks(s0, s0, looks);
      if available > SIZE {
        MoreLooks(s0, s0, looks, last);
        looks := looks + [last];
      }
      var retry := 0;
      while retry < RETRIES && available > SIZE
        invariant Valid() && Grown(s0.written) && 0 <= retry <= RETRIES && GoesOn(s0, Begin())
        invariant Taken(last, |s0.written|, |written|, s0.serviced, serviced) && last.counted == serviced
        invariant available <= SIZE <==> last.Fits(read)
        invariant last.Fits(read) ==> available == last.Seen() - read
        invariant Misfits(looks, read, |s0.written|, |written|, s0.serviced, serviced)
        invariant available > SIZE ==> Pursued(s0.script, script, looks, s0.serviced, serviced)
        invariant |looks| == retry + if available > SIZE then 1 else 0
        invariant available > SIZE ==> looks[retry] == last
        invariant overflowCount == s0.overflow && read == s0.read
        invariant s0.script == [] ==> Still() && last == Now()
      {
        ghost var s1 := Begin();
        available, last := Pending();
        GoesOnFacts(s0, s1, Begin());
        SameLooks(s0, s1, looks);
        if available > SIZE {
          MoreLooks(s0, s1, looks, last);
          looks := looks + [last];
        }
        retry := retry + 1;
      }
      discarded := available > SIZE;
      if available > SIZE {
        Overflow(s0, looks);
        ghost var s1 := Begin();
        last := Discard();
        GoesOnFacts(s0, s1, Begin());
        SameLooks(s0, s1, looks);
        AtLeast(|s1.written|, |written|);
        available := 0;
      }
      Decided(last, s0.read, |s0.written|, |written|, s0.serviced, serviced);
    }
    ghost function Begin(): Start
      reads this
    {
      Start(read, written, serviced, overflowCount, script)
    }

    lemma StartFacts(s0: Start)
      requires Valid() && s0 == Begin()
      ensures s0.read <= |s0.written| && s0.read / SIZE <= s0.serviced
      ensures GoesOn(s0, s0) && Misfits([], read, |written|, |written|, serviced, serviced)
    {
    }

    /** Samples stay what they are while the total and the count of wraps go on. */
    lemma SameLooks(s0: Start, s1: Start, looks: seq<Look>)
      requires |s1.written| <= |written| && s1.serviced <= serviced
      requires Misfits(looks, s0.read, |s0.written|, |s1.written|, s0.serviced, s1.serviced)
      ensures Misfits(looks, s0.read, |s0.written|, |written|, s0.serviced, serviced)
    {
    }

    lemma MoreLooks(s0: Start, s1: Start, looks: seq<Look>, look: Look)
      requires |s0.written| <= |s1.written| <= |written| && s0.serviced <= s1.serviced <= serviced
      requires Misfits(looks, s0.read, |s0.written|, |s1.written|, s0.serviced, s1.serviced)
      requires Taken(look, |s1.written|, |written|, s1.serviced, serviced) && !look.Fits(s0.read)
      requires looks == [] ==> s1.script == s0.script
      requires looks != [] ==> Pursued(s0.script, s1.script, looks, s0.serviced, s1.serviced)
      requires serviced == s1.serviced ==> OnePass(s1.script, script, |s1.written|, look, serviced)
      ensures Misfits(looks + [look], s0.read, |s0.written|, |written|, s0.serviced, serviced)
      ensures Pursued(s0.script, script, looks + [look], s0.serviced, serviced)
    {
      hide Pursued, OnePass, Look.Fits;
      PursuedNext(s0.script, s1.script, script, looks, look, s0.serviced, s1.serviced, serviced, |s1.written|);
    }

    /** What an overflow without an overrun says about the interrupt. */
    lemma Overflow(s0: Start, looks: seq<Look>)
      requires |looks| == RETRIES + 1 && looks[RETRIES].counted == serviced
      requires Misfits(looks, s0.read, |s0.written|, |written|, s0.serviced, serviced)
      requires Pursued(s0.script, script, looks, s0.serviced, serviced)
      requires s0.read <= |s0.written| && s0.read / SIZE <= s0.serviced
      ensures |written| <= s0.read + SIZE ==>
        OneWrapUncounted(looks, s0.read) && |written| / SIZE > s0.serviced && Neglected(s0.script, Begin())
    {
      hide Misfits, Pursued, OneWrapUncounted, Prompt;
      if |written| <= s0.read + SIZE {
        NoOverrun(s0.script, script, looks, s0.read, |s0.written|, |written|, s0.serviced, serviced);
      }
    }

    static lemma Decided(look: Look, read0: nat, low: nat, high: nat, first: nat, last: nat)
      requires Taken(look, low, high, first, last) && read0 <= low
      ensures look.Seen() < read0 <==> look.Lags() && look.at < read0 + SIZE
      ensures look.Seen() > read0 <==> look.at > read0 + if look.Lags() then SIZE else 0
      ensures look.Fits(read0) ==> (look.at > read0 + SIZE <==> look.Lags() && look.Seen() > read0)
    {
      SeenIs(look);
    }

    /** How far the counters are apart. */
    method Pending() returns (available: nat, look: Look)
      requires Valid()
      modifies this`rxWraps, this`ndtr, this`written, this`serviced, this`script, buffer
      ensures Valid() && Grown(old(written)) && GoesOn(old(Begin()), Begin())
      ensures Taken(look, |old(written)|, |written|, old(serviced), serviced) && look.counted == serviced
      ensures serviced == old(serviced) ==> OnePass(old(script), script, |old(written)|, look, serviced)
      ensures available <= SIZE <==> look.Fits(read)
      ensures look.Fits(read) ==> available == look.Seen() - read
      ensures old(script) == [] ==> Still() && look == Now()
    {
      hide Mirror, OnePass, GoesOn;
      var count;
      count, look := GetDmaWriteCount();
      Difference(look, read);
      available := (count + WORD - rxTotalRead) % WORD;
    }

    /** Drops everything up to where one more sample sees the DMA. */
    method Discard() returns (last: Look)
      requires Valid()
      modifies this`rxWraps, this`ndtr, this`written, this`serviced, this`script, this`rxTotalRead,
               this`overflowCount, this`read, buffer
      ensures Valid() && old(written) <= written && GoesOn(old(Begin()), Begin())
      ensures Taken(last, |old(written)|, |written|, old(serviced), serviced) && last.counted == serviced
      ensures read == last.Seen() && overflowCount == old(overflowCount) + 1
      ensures old(script) == [] ==> Still() && last == Now()
    {
      hide Mirror;
      overflowCount := overflowCount + 1;
      var count;
      count, last := GetDmaWriteCount();
      SeenIs(last);
      rxTotalRead := count;
      read := last.Seen();
    }

    // ----- the reader -----

    /**
     uPortUartRead.  It delivers what lies behind the reader, who has moved if there were discards: as
     much as the last sample shows and the caller has room for.  A blocking read that finds nothing
     waits, and gives up only when its time is up.  If the writer does not get a buffer ahead of the
     reader, what is delivered is what was written there, whatever happens meanwhile and however
     often a counter wraps; and if the interrupt is not kept waiting through 101 samples either, all
     that was ever delivered is what was written, from the first octet on.
     */
    method Read(isOpen: bool, data: array?<byte>, length: nat, timeoutMs: int, clock: Timing.Clock)
      returns (r: int, ghost c: Course)
      requires Valid() && (data != null ==> data.Length >= length && data != buffer)
      modifies this, buffer, data, clock
      ensures Valid() && old(written) <= written && Suffix(script, old(script))
      ensures -1 <= r <= length && (r == -1 <==> length == 0 || !isOpen)
      ensures r == -1 ==> read == old(read) && overflowCount == old(overflowCount) && delivered == old(delivered)
      ensures r >= 0 ==> Follows(c, old(Begin()), Begin())
      ensures r >= 0 ==> r == if data == null || c.timedOut then 0 else Min(length, c.last.Seen() - c.from)
      ensures r >= 0 && c.waited ==> timeoutMs > 0 && data != null
      ensures r == 0 && timeoutMs > 0 && data != null ==> c.timedOut
      ensures r >= 0 && c.timedOut ==> clock.answers == [] || true in old(clock.answers)
      ensures r >= 0 ==> read == c.from + r && (data != null ==> delivered == old(delivered) + data[..r])
      ensures r > 0 && |written| <= c.from + SIZE ==> data[..r] == written[c.from..read]
      ensures r >= 0 && !c.discarded && |written| <= old(read) + SIZE && old(Intact()) ==> Intact()
      ensures |written| <= old(read) + SIZE && !Neglected(old(script), Begin()) && old(Intact()) ==>
        Intact() && overflowCount == old(overflowCount)
      ensures r >= 0 && old(script) == [] && timeoutMs <= 0 ==>
        && Still() && c.last == Now() && (c.discarded <==> !c.last.Fits(old(read)))
        && FromRing(data, r, c.from)
    {
      hide Mirror, DmaUart.Valid, Follows, Misfits, Neglected, Suffix;
      SuffixSelf();
      var none := Look(0, 0);
      r, c := -1, Course(false, [], none, none, false, false, read);
      if length != 0 && isOpen {
        r, c := Fetch(data, length, timeoutMs, clock);
        if data != null {
          Deliver(data[..r]);
        }
      }
    }

    lemma SuffixSelf()
      ensures Suffix(script, script)
    {
    }

    /** What was delivered is what the buffer holds from that position on. */
    ghost predicate FromRing(data: array?<byte>, n: nat, from: nat)
      reads data, buffer
    {
      n > 0 ==>
        && data != null && n <= data.Length && buffer.Length == SIZE
        && forall i :: 0 <= i < n ==> data[i] == buffer[(from + i) % SIZE]
    }

    /** Read without the bookkeeping of what was delivered. */
    method Fetch(data: array?<byte>, length: nat, timeoutMs: int, clock: Timing.Clock) returns (r: nat, ghost c: Course)
      requires Valid() && length > 0 && (data != null ==> data.Length >= length && data != buffer)
      modifies this`rxWraps, this`ndtr, this`written, this`serviced, this`script, this`rxTotalRead,
               this`overflowCount, this`read, clock, buffer, data
      ensures Valid() && old(written) <= written && read <= |written| && Suffix(script, old(script))
      ensures read == c.from + r
      ensures !c.discarded ==> c.from == old(read) && overflowCount == old(overflowCount)
      ensures r == if data == null || c.timedOut then 0 else Min(length, c.last.Seen() - c.from)
      ensures c.waited ==> timeoutMs > 0 && data != null
      ensures r == 0 && timeoutMs > 0 && data != null ==> c.timedOut
      ensures c.timedOut ==> clock.answers == [] || true in old(clock.answers)
      ensures r > 0 && |written| <= c.from + SIZE ==> data[..r] == written[c.from..read]
      ensures old(script) == [] && timeoutMs <= 0 ==>
        && Still() && c.last == Now() && (c.discarded <==> !c.last.Fits(old(read)))
        && FromRing(data, r, c.from)
      ensures Follows(c, old(Begin()), Begin())
      ensures c.discarded && |written| <= old(read) + SIZE ==> Neglected(old(script), Begin())
    {
      hide Mirror, DmaUart.Valid, Follows, Suffix, Neglected, Misfits, GoesOn;
      ghost var s0 := Begin();
      var available;
      available, c := Ask();
      FollowsFacts(c, s0, Begin());
      r := 0;
      ValidFacts();
      if data != null && (timeoutMs != 0 || available != 0) {
        if timeoutMs > 0 && available == 0 {
          available, c := AwaitData(clock, c, s0);
          FollowsFacts(c, s0, Begin());
        }
        ghost var s1 := Begin();
        r := Copy(data, length, available);
        ValidFacts();
        FollowsOn(c, s0, s1, Begin());
      }
      FollowsFacts(c, s0, Begin());
    }

    method Deliver(octets: seq<byte>)
      requires Valid()
      modifies this`delivered
      ensures Valid() && delivered == old(delivered) + octets
    {
      delivered := delivered + octets;
    }

    /** What is available at the start of a read. */
    method Ask() returns (available: nat, ghost c: Course)
      requires Valid()
      modifies this`rxWraps, this`ndtr, this`written, this`serviced, this`script, this`rxTotalRead,
               this`overflowCount, this`read, buffer
      ensures Valid() && old(written) <= written
      ensures Follows(c, old(Begin()), Begin()) && c.from == read && !c.waited
      ensures c.last == c.first && available == c.last.Seen() - read
      ensures old(script) == [] ==> Still() && c.last == Now() && (c.discarded <==> !c.last.Fits(old(read)))
    {
      hide DmaUart.Valid, Prompt, OneWrapUncounted;
      ghost var discarded, looks;
      var last;
      available, discarded, looks, last := GetRxBufferAvailable();
      c := Course(discarded, looks, last, last, false, false, read);
    }

    /** The wait of a blocking read; zero when the time is up. */
    method AwaitData(clock: Timing.Clock, ghost c0: Course, ghost s0: Start)
      returns (available: nat, ghost c: Course)
      requires Valid() && Follows(c0, s0, Begin()) && c0.from == read && !c0.waited
      requires c0.last == c0.first && c0.last.Seen() == read
      modifies this`rxWraps, this`ndtr, this`written, this`serviced, this`script, this`rxTotalRead,
               this`overflowCount, this`read, clock, buffer
      ensures Valid() && old(written) <= written
      ensures Follows(c, s0, Begin()) && c.from == read && c.waited
      ensures available == if c.timedOut then 0 else c.last.Seen() - read
      ensures available == 0 ==> c.timedOut
      ensures c.timedOut ==> clock.answers == [] || true in old(clock.answers)
    {
      hide DmaUart.Valid, Prompt, OneWrapUncounted, Misfits, Taken, Suffix, Neglected;
      available, c := 0, c0.(waited := true);
      var waiting := true;
      ghost var asked := 0;
      while available == 0 && waiting
        invariant Valid() && old(written) <= written
        invariant Follows(c, s0, Begin()) && c.from == read && c.waited
        invariant available == if c.timedOut then 0 else c.last.Seen() - read
        invariant waiting <==> !c.timedOut
        invariant asked <= |old(clock.answers)| && clock.answers == old(clock.answers)[asked..]
        invariant c.timedOut ==> clock.answers == [] || true in old(clock.answers)
        decreases |clock.answers|, waiting
      {
        available, c := AskAgain(c, s0);
        var expired := clock.Expired();
        if asked < |old(clock.answers)| { asked := asked + 1; }
        if expired {
          available, c := 0, c.(timedOut := true);
          waiting := false;
        }
      }
    }

    method AskAgain(ghost c0: Course, ghost s0: Start) returns (available: nat, ghost c: Course)
      requires Valid() && Follows(c0, s0, Begin()) && c0.from == read && c0.waited
      modifies this`rxWraps, this`ndtr, this`written, this`serviced, this`script, this`rxTotalRead,
               this`overflowCount, this`read, buffer
      ensures Valid() && old(written) <= written
      ensures Follows(c, s0, Begin()) && c.from == read && c.waited && c.timedOut == c0.timedOut
      ensures available == c.last.Seen() - read
    {
      hide DmaUart.Valid, Follows, Misfits, Suffix, Taken, Neglected, OneWrapUncounted;
      ghost var discarded, looks;
      var last;
      ghost var s1 := Begin();
      available, discarded, looks, last := GetRxBufferAvailable();
      c := c0.(last := last, from := read);
      if discarded && !c0.discarded {
        c := c.(discarded := true, missed := looks);
      }
      Continued(c0, c, s0, s1, Begin(), discarded, looks);
    }

    /** The two-part copy; the DMA goes on writing while it runs. */
    method Copy(data: array<byte>, length: nat, available: nat) returns (n: nat)
      requires Valid() && data.Length >= length && data != buffer
      requires available <= |written| - read && available <= SIZE && (read + available) / SIZE <= serviced
      modifies this`rxWraps, this`ndtr, this`written, this`serviced, this`script, this`rxTotalRead, this`read, buffer, data
      ensures Valid() && old(written) <= written
      ensures n == Min(length, available) && read == old(read) + n && GoesOn(old(Begin()), Begin())
      ensures overflowCount == old(overflowCount)
      ensures |written| <= old(read) + SIZE ==> data[..n] == written[old(read)..read]
      ensures old(script) == [] ==> Still() && FromRing(data, n, old(read))
    {
      hide Mirror, DmaUart.Valid, Copied, GoesOn, FromRing;
      ghost var s0 := Begin();
      ValidFacts();
      n := if length < available then length else available;
      ghost var quiet := script == [];
      CopyBoth(data, n, quiet);
      AtLeast(read + n, read + available);
      CopiedFacts(data, n, quiet);
      ghost var s1 := Begin();
      Further(s0, s1);
      MoveOn(n);
      ReaderMoves(s0, s1, Begin());
    }

    method CopyBoth(data: array<byte>, n: nat, ghost quiet: bool)
      requires Valid() && data.Length >= n && data != buffer && n <= SIZE && read + n <= |written|
      requires quiet ==> script == []
      modifies this`rxWraps, this`ndtr, this`written, this`serviced, this`script, buffer, data
      ensures Valid() && GoesOn(old(Begin()), Begin()) && Copied(data, n, quiet) && (quiet ==> Still())
    {
      hide Mirror, DmaUart.Valid, Copied, GoesOn;
      ghost var s0 := Begin();
      StartFacts(s0);
      ValidFacts();
      var tailIdx := rxTotalRead % SIZE;
      SameSlot(read);
      var firstChunk := SIZE - tailIdx;
      if firstChunk > n {
        firstChunk := n;
      }
      Chunks(read, firstChunk, n);
      NothingCopied(data, quiet);
      CopyPart(data, 0, firstChunk, tailIdx, quiet);
      if n > firstChunk {
        NextLap(read, firstChunk);
        ghost var s1 := Begin();
        CopyPart(data, firstChunk, n - firstChunk, 0, quiet);
        GoesOnFacts(s0, s1, Begin());
      }
    }

    lemma NothingCopied(data: array<byte>, quiet: bool)
      requires read <= |written| && buffer.Length == SIZE && (quiet ==> script == [])
      ensures Copied(data, 0, quiet)
    {
    }

    lemma ValidFacts()
      requires Valid()
      ensures rxTotalRead == read % WORD && read <= |written| && buffer.Length == SIZE
    {
    }

    method MoveOn(n: nat)
      requires Valid() && n <= |written| - read && (read + n) / SIZE <= serviced
      modifies this`rxTotalRead, this`read
      ensures Valid() && read == old(read) + n
    {
      hide Mirror;
      Advance(rxTotalRead, read, n);
      rxTotalRead := (rxTotalRead + n) % WORD;
      read := read + n;
    }

    static lemma SameSlot(read: nat)
      ensures (read % WORD) % SIZE == read % SIZE
    {
    }

    static lemma Chunks(read: nat, first: nat, n: nat)
      requires first == (if SIZE - read % SIZE > n then n else SIZE - read % SIZE)
      ensures first <= n && read % SIZE + first <= SIZE && (n > first ==> first == SIZE - read % SIZE)
    {
    }

    static lemma NextLap(read: nat, first: nat)
      requires first == SIZE - read % SIZE
      ensures (read + first) % SIZE == 0
    {
    }

    static lemma Advance(total: nat, read: nat, n: nat)
      requires total == read % WORD
      ensures (total + n) % WORD == (read + n) % WORD
    {
      WholeWords(total + n, read / WORD);
    }

    /** The first n octets behind the reader have been copied, and nothing else happened if all is quiet. */
    ghost predicate Copied(data: array<byte>, n: nat, quiet: bool)
      reads this`written, this`read, this`script, data, buffer
    {
      && n <= data.Length && read + n <= |written| && buffer.Length == SIZE
      && (|written| <= read + SIZE ==> data[..n] == written[read..read + n])
      && (quiet ==> script == [] && forall i :: 0 <= i < n ==> data[i] == buffer[(read + i) % SIZE])
    }

    lemma CopiedFacts(data: array<byte>, n: nat, quiet: bool)
      requires Copied(data, n, quiet)
      ensures read + n <= |written| && n <= data.Length
      ensures |written| <= read + SIZE ==> data[..n] == written[read..read + n]
      ensures quiet ==> FromRing(data, n, read) && script == []
    {
    }

    /** memcpy of n octets from slot idx on. */
    method CopyPart(data: array<byte>, to: nat, n: nat, idx: nat, ghost quiet: bool)
      requires Valid() && data != buffer && to + n <= data.Length && idx + n <= SIZE
      requires read + to + n <= |written| && (n > 0 ==> idx == (read + to) % SIZE)
      requires Copied(data, to, quiet)
      modifies this`rxWraps, this`ndtr, this`written, this`serviced, this`script, buffer, data
      ensures Valid() && Grown(old(written)) && Copied(data, to + n, quiet) && (quiet ==> Still())
      ensures GoesOn(old(Begin()), Begin())
    {
      hide Mirror, DmaUart.Valid, Copied, GoesOn;
      ghost var s0 := Begin();
      StartFacts(s0);
      for i := 0 to n
        invariant Valid() && Grown(old(written)) && Copied(data, to + i, quiet) && (quiet ==> Still())
        invariant GoesOn(old(Begin()), Begin())
      {
        SlotAfter(read + to, i, idx);
        ghost var s1 := Begin();
        CopyOctet(data, to + i, idx + i, quiet);
        GoesOnFacts(s0, s1, Begin());
      }
    }

    method CopyOctet(data: array<byte>, k: nat, slot: nat, ghost quiet: bool)
      requires Valid() && data != buffer && k < data.Length && slot < SIZE
      requires read + k < |written| && slot == (read + k) % SIZE && Copied(data, k, quiet)
      modifies this`rxWraps, this`ndtr, this`written, this`serviced, this`script, buffer, data
      ensures Valid() && Grown(old(written)) && Copied(data, k + 1, quiet) && (quiet ==> Still())
      ensures GoesOn(old(Begin()), Begin())
    {
      hide DmaUart.Valid, Mirror, GoesOn, Copied;
      ValidFacts();
      CopiedFacts(data, k, quiet);
      if |written| <= read + SIZE { Holds(read + k); }
      StoreOctet(data, k, slot, quiet);
      Interrupted(data, k + 1, quiet);
    }

    method Interrupted(data: array<byte>, n: nat, ghost quiet: bool)
      requires Valid() && data != buffer && Copied(data, n, quiet)
      modifies this`rxWraps, this`ndtr, this`written, this`serviced, this`script, buffer
      ensures Valid() && Grown(old(written)) && Copied(data, n, quiet) && (quiet ==> Still())
      ensures GoesOn(old(Begin()), Begin())
    {
      hide DmaUart.Valid, Mirror, GoesOn;
      ghost var s0, slots := Begin(), buffer[..];
      Interfere();
      ValidFacts();
      Further(s0, Begin());
      forall i | quiet && 0 <= i < n ensures data[i] == buffer[(read + i) % SIZE] {
        assert buffer[..][(read + i) % SIZE] == slots[(read + i) % SIZE];
      }
    }

    lemma Holds(k: nat)
      requires Valid() && k < |written| <= k + SIZE
      ensures buffer[k % SIZE] == written[k]
    {
    }

    method StoreOctet(data: array<byte>, k: nat, slot: nat, ghost quiet: bool)
      requires data != buffer && k < data.Length && buffer.Length == SIZE && slot < SIZE
      requires read + k < |written| && slot == (read + k) % SIZE && Copied(data, k, quiet)
      requires |written| <= read + SIZE ==> buffer[slot] == written[read + k]
      modifies data
      ensures Copied(data, k + 1, quiet)
    {
      data[k] := buffer[slot];
    }

    static lemma SlotAfter(start: nat, i: nat, idx: nat)
      requires idx == start % SIZE && idx + i < SIZE
      ensures (start + i) % SIZE == idx + i
    {
    }
  }

  // ----- what a lagging interrupt can do -----

  /** The DMA stores n copies of an octet and no interrupt runs. */
  method Arrive(u: DmaUart, b: byte, n: nat)
    requires u.Valid() && u.serviced == 0 && |u.written| + n < 2 * SIZE
    modifies u`rxWraps, u`ndtr, u`written, u`serviced, u.buffer
    ensures u.Valid() && u.serviced == 0 && u.written == old(u.written) + Fill(n, b)
  {
    hide Mirror;
    for i := 0 to n
      invariant u.Valid() && u.serviced == 0 && u.written == old(u.written) + Fill(i, b)
    {
      u.Happen(Byte(b));
    }
  }

  /** An unhindered read of one octet, from behind the reader or from where a discard puts it. */
  method ReadOne(u: DmaUart)
    requires u.Valid() && u.script == []
    modifies u, u.buffer
    ensures u.Valid() && u.script == [] && u.written == old(u.written) && u.serviced == old(u.serviced)
    ensures var last := u.Now();
      if !last.Fits(old(u.read)) then
        u.read == last.Seen() && u.delivered == old(u.delivered) && u.overflowCount > old(u.overflowCount)
      else
        && u.overflowCount == old(u.overflowCount)
        && (last.Seen() > old(u.read) ==>
              u.read == old(u.read) + 1 && u.delivered == old(u.delivered) + [old(u.buffer[u.read % SIZE])])
  {
    hide Mirror, DmaUart.Valid, Misfits, OneWrapUncounted, Neglected, Suffix;
    var clock := new Timing.Clock([]);
    var data := new byte[1];
    ghost var slot := u.read % SIZE;
    u.ValidFacts();
    var r, c := u.Read(true, data, 1, 0, clock);
    assert r == 1 ==> data[..1] == [data[0]];
    assert u.buffer[slot] == old(u.buffer[..])[slot];
  }

  /** The discard behind a lagging interrupt takes back an octet that was delivered: it comes twice. */
  method DeliveredTwice() returns (u: DmaUart)
    ensures u.Valid() && u.written == [7] + Fill(SIZE - 1, 9) && u.overflowCount > 0
    ensures u.delivered == [7, 7]
  {
    hide Mirror, DmaUart.Valid;
    u := new DmaUart([]);
    Arrive(u, 7, 1);
    u.Holds(0);
    ReadOne(u);
    Arrive(u, 9, SIZE - 1);
    u.Holds(0);
    ReadOne(u);
    u.Happen(WrapInterrupt);
    u.Holds(0);
    ReadOne(u);
  }

  /** An overrun that a lagging interrupt hides: the newest octet is delivered for the oldest. */
  method OverrunDelivered() returns (u: DmaUart)
    ensures u.Valid() && u.written == Fill(SIZE, 7) + [9] && u.overflowCount == 0
    ensures u.delivered == [9]
  {
    hide Mirror, DmaUart.Valid;
    u := new DmaUart([]);
    Arrive(u, 7, SIZE);
    Arrive(u, 9, 1);
    u.Holds(SIZE);
    ReadOne(u);
  }
}
