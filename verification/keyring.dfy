/** A sealed credential split over numbered keyring entries, because entries have a length limit, and
    joined again. Sealed strings have one-byte characters. */
module Keyring {
  import opened Wrappers

  const CONTINUE_MARKER := "<MORE>"

  type Passwords = map<nat, string>

  datatype ReadResult = Sealed(sealed: string) | Missing | Failed

  predicate EndsWith(s: string, suffix: string) {
    |s| >= |suffix| && s[|s| - |suffix|..] == suffix
  }

  /** The entries after storing `rest` from entry k on: full chunks carry the marker. */
  function Stored(passwords: Passwords, rest: string, k: nat, step: nat): Passwords
    requires step > 0
    decreases |rest|
  {
    if rest == "" then passwords
    else if |rest| >= step then Stored(passwords[k := rest[..step] + CONTINUE_MARKER], rest[step..], k + 1, step)
    else passwords[k := rest]
  }

  function From(passwords: Passwords, k: nat): set<nat> {
    set x | x in passwords && x >= k
  }

  lemma FromShrinks(passwords: Passwords, k: nat)
    requires k in passwords
    ensures From(passwords, k + 1) < From(passwords, k)
  {
    assert k in From(passwords, k);
  }

  function Prepended(s: string, r: Option<string>): Option<string> {
    match r
    case None => None
    case Some(rest) => Some(s + rest)
  }

  lemma PrependedTwice(a: string, b: string, r: Option<string>)
    ensures Prepended(a, Prepended(b, r)) == Prepended(a + b, r)
  {
    if r.Some? {
      assert a + (b + r.value) == (a + b) + r.value;
    }
  }

  lemma PrependedNothing(r: Option<string>)
    ensures Prepended("", r) == r
  {
    if r.Some? {
      assert "" + r.value == r.value;
    }
  }

  /** What reading from entry k on gives: chunks up to the first without the marker. */
  function Joined(passwords: Passwords, k: nat): Option<string>
    decreases From(passwords, k)
  {
    if k !in passwords then None
    else if EndsWith(passwords[k], CONTINUE_MARKER) then
      FromShrinks(passwords, k);
      Prepended(passwords[k][..|passwords[k]| - |CONTINUE_MARKER|], Joined(passwords, k + 1))
    else Some(passwords[k])
  }

  /** What is left after the full chunks: the last entry, empty at an exact multiple. */
  function Remainder(sealed: string, step: nat): string
    requires step > 0
    decreases |sealed|
  {
    if |sealed| < step then sealed else Remainder(sealed[step..], step)
  }

  lemma {:induction false} StoredKeeps(passwords: Passwords, rest: string, k: nat, step: nat, j: nat)
    requires step > 0 && j < k
    ensures j in Stored(passwords, rest, k, step) <==> j in passwords
    ensures j in passwords ==> Stored(passwords, rest, k, step)[j] == passwords[j]
    decreases |rest|
  {
    if |rest| >= step {
      StoredKeeps(passwords[k := rest[..step] + CONTINUE_MARKER], rest[step..], k + 1, step, j);
    }
  }

  predicate SameAt(a: Passwords, b: Passwords, j: nat) {
    (j in a <==> j in b) && (j in a ==> a[j] == b[j])
  }

  /** `now` holds `written` below entry k and `before` from k on. */
  ghost predicate Mixed(now: Passwords, written: Passwords, before: Passwords, k: nat) {
    forall j: nat :: if j < k then SameAt(now, written, j) else SameAt(now, before, j)
  }

  lemma StoredKeepsAll(passwords: Passwords, rest: string, k: nat, step: nat)
    requires step > 0
    ensures forall j: nat :: j < k ==> SameAt(passwords, Stored(passwords, rest, k, step), j)
  {
    forall j: nat | j < k ensures SameAt(passwords, Stored(passwords, rest, k, step), j) {
      StoredKeeps(passwords, rest, k, step, j);
    }
  }

  /** What the entry after the full chunks reads as, with the older entries behind it: an empty last
      chunk is not written, and one that ends with the marker reads on. */
  function LastRead(passwords: Passwords, last: string, n: nat): Option<string> {
    if last == "" then Joined(passwords, n)
    else if EndsWith(last, CONTINUE_MARKER) then
      Prepended(last[..|last| - |CONTINUE_MARKER|], Joined(passwords, n + 1))
    else Some(last)
  }

  lemma {:induction false} JoinedSame(a: Passwords, b: Passwords, k: nat)
    requires forall j: nat :: j >= k ==> SameAt(a, b, j)
    ensures Joined(a, k) == Joined(b, k)
    decreases From(a, k)
  {
    assert SameAt(a, b, k);
    if k in a && EndsWith(a[k], CONTINUE_MARKER) {
      FromShrinks(a, k);
      JoinedSame(a, b, k + 1);
    }
  }

  /** A last chunk alone. */
  lemma StoredLast(passwords: Passwords, last: string, n: nat, step: nat)
    requires step > 0 && |last| < step
    ensures Joined(Stored(passwords, last, n, step), n) == LastRead(passwords, last, n)
  {
    if last != "" {
      var after := passwords[n := last];
      assert Stored(passwords, last, n, step) == after;
      forall j: nat | j >= n + 1 ensures SameAt(after, passwords, j) {
      }
      JoinedSame(after, passwords, n + 1);
    }
  }

  /** How many full chunks there are, and their text. */
  function Chunks(sealed: string, step: nat): nat
    requires step > 0
    decreases |sealed|
  {
    if |sealed| < step then 0 else 1 + Chunks(sealed[step..], step)
  }

  function Front(sealed: string, step: nat): string
    requires step > 0
    decreases |sealed|
  {
    if |sealed| < step then "" else sealed[..step] + Front(sealed[step..], step)
  }

  lemma {:induction false} FrontAndRemainder(sealed: string, step: nat)
    requires step > 0
    ensures Front(sealed, step) + Remainder(sealed, step) == sealed
    ensures |Front(sealed, step)| == Chunks(sealed, step) * step && |Remainder(sealed, step)| < step
    decreases |sealed|
  {
    if |sealed| >= step {
      var front, last := Front(sealed[step..], step), Remainder(sealed[step..], step);
      FrontAndRemainder(sealed[step..], step);
      assert (sealed[..step] + front) + last == sealed[..step] + (front + last);
      assert sealed == sealed[..step] + sealed[step..];
    }
  }

  /** How many entries storing writes. */
  function Entries(sealed: string, step: nat): nat
    requires step > 0
    decreases |sealed|
  {
    if sealed == "" then 0
    else if |sealed| >= step then 1 + Entries(sealed[step..], step)
    else 1
  }

  lemma {:induction false} EntriesAreChunks(sealed: string, step: nat)
    requires step > 0
    ensures Entries(sealed, step) == Chunks(sealed, step) + if Remainder(sealed, step) == "" then 0 else 1
    decreases |sealed|
  {
    if |sealed| >= step {
      EntriesAreChunks(sealed[step..], step);
    }
  }

  /** The entry number that the original computes. */
  lemma ChunksExact(sealed: string, step: nat)
    requires step > 0
    ensures Chunks(sealed, step) == |sealed| / step && |Remainder(sealed, step)| == |sealed| % step
    ensures Entries(sealed, step) == |sealed| / step + if |sealed| % step == 0 then 0 else 1
  {
    EntriesAreChunks(sealed, step);
    FrontAndRemainder(sealed, step);
    DivUnique(|sealed|, step, Chunks(sealed, step), |Remainder(sealed, step)|);
  }

  lemma DivUnique(n: nat, step: nat, q: nat, r: nat)
    requires 0 < step && n == q * step + r && r < step
    ensures n / step == q && n % step == r
  {
    var q', r' := n / step, n % step;
    if q < q' {
      Grows(step, q, q');
    } else if q' < q {
      Grows(step, q', q);
    }
  }

  lemma {:induction false} Grows(step: nat, q: nat, q': nat)
    requires q < q'
    ensures q' * step >= q * step + step
    decreases q'
  {
    if q' > q + 1 {
      Grows(step, q, q' - 1);
    }
    assert q' * step == (q' - 1) * step + step;
  }

  /** The chunks come back in order, then whatever the last entry reads as. */
  lemma {:induction false} StoredReads(passwords: Passwords, sealed: string, k: nat, step: nat)
    requires step > 0
    ensures Joined(Stored(passwords, sealed, k, step), k)
      == Prepended(Front(sealed, step), LastRead(passwords, Remainder(sealed, step), k + Chunks(sealed, step)))
    decreases |sealed|
  {
    if |sealed| < step {
      StoredLast(passwords, sealed, k, step);
      PrependedNothing(LastRead(passwords, sealed, k));
    } else {
      var before := passwords[k := sealed[..step] + CONTINUE_MARKER];
      StoredReads(before, sealed[step..], k + 1, step);
      ReadsOn(passwords, sealed, k, step);
    }
  }

  lemma ReadsOn(passwords: Passwords, sealed: string, k: nat, step: nat)
    requires 0 < step <= |sealed|
    requires var before, tail := passwords[k := sealed[..step] + CONTINUE_MARKER], sealed[step..];
      Joined(Stored(before, tail, k + 1, step), k + 1)
      == Prepended(Front(tail, step), LastRead(before, Remainder(tail, step), k + 1 + Chunks(tail, step)))
    ensures Joined(Stored(passwords, sealed, k, step), k)
      == Prepended(Front(sealed, step), LastRead(passwords, Remainder(sealed, step), k + Chunks(sealed, step)))
  {
    var before, tail := passwords[k := sealed[..step] + CONTINUE_MARKER], sealed[step..];
    LastReadSame(before, passwords, Remainder(tail, step), k + 1 + Chunks(tail, step));
    FirstChunkReads(before, tail, k, step, sealed[..step]);
    PrependedTwice(sealed[..step], Front(tail, step), LastRead(passwords, Remainder(tail, step), k + 1 + Chunks(tail, step)));
  }

  lemma FirstChunkReads(passwords: Passwords, tail: string, k: nat, step: nat, chunk: string)
    requires step > 0 && k in passwords && passwords[k] == chunk + CONTINUE_MARKER
    ensures var after := Stored(passwords, tail, k + 1, step); Joined(after, k) == Prepended(chunk, Joined(after, k + 1))
  {
    StoredKeeps(passwords, tail, k + 1, step, k);
    ChunkReads(Stored(passwords, tail, k + 1, step), k, chunk);
  }

  lemma ChunkReads(passwords: Passwords, k: nat, chunk: string)
    requires k in passwords && passwords[k] == chunk + CONTINUE_MARKER
    ensures Joined(passwords, k) == Prepended(chunk, Joined(passwords, k + 1))
  {
    var text := chunk + CONTINUE_MARKER;
    assert text[|text| - |CONTINUE_MARKER|..] == CONTINUE_MARKER && text[..|text| - |CONTINUE_MARKER|] == chunk;
  }

  lemma LastReadSame(a: Passwords, b: Passwords, last: string, n: nat)
    requires forall j: nat :: j >= n ==> SameAt(a, b, j)
    ensures LastRead(a, last, n) == LastRead(b, last, n)
  {
    JoinedSame(a, b, n);
    JoinedSame(a, b, n + 1);
  }

  /** Exactly when reading gives back what was stored, on a keyring with any older content: the last
      chunk ends the reading; or it is empty and the old entries in its place join to nothing; or it ends
      with the marker and the old entries behind it join to a marker. */
  lemma StoreThenRead(passwords: Passwords, sealed: string, step: nat)
    requires step > 0
    ensures var last, n := Remainder(sealed, step), |sealed| / step;
      Joined(Stored(passwords, sealed, 0, step), 0) == Some(sealed) <==>
        if last == "" then Joined(passwords, n) == Some("")
        else EndsWith(last, CONTINUE_MARKER) ==> Joined(passwords, n + 1) == Some(CONTINUE_MARKER)
  {
    ChunksExact(sealed, step);
    FrontAndRemainder(sealed, step);
    StoredReads(passwords, sealed, 0, step);
    LastReadWhole(passwords, Remainder(sealed, step), |sealed| / step);
    var front, last := Front(sealed, step), Remainder(sealed, step);
    match LastRead(passwords, last, |sealed| / step)
    case None =>
    case Some(rest) => SameFront(front, rest, last);
  }

  lemma SameFront(front: string, a: string, b: string)
    ensures front + a == front + b <==> a == b
  {
    if front + a == front + b {
      assert a == (front + a)[|front|..] == (front + b)[|front|..] == b;
    }
  }

  lemma LastReadWhole(passwords: Passwords, last: string, n: nat)
    ensures LastRead(passwords, last, n) == Some(last) <==>
      if last == "" then Joined(passwords, n) == Some("")
      else EndsWith(last, CONTINUE_MARKER) ==> Joined(passwords, n + 1) == Some(CONTINUE_MARKER)
  {
    if last != "" && EndsWith(last, CONTINUE_MARKER) && Joined(passwords, n + 1).Some? {
      var head := last[..|last| - |CONTINUE_MARKER|];
      assert last == head + CONTINUE_MARKER;
      SameFront(head, Joined(passwords, n + 1).value, CONTINUE_MARKER);
    }
  }

  /** In a fresh keyring it fails exactly at a multiple of the step and when the last chunk ends with the
      marker, and then nothing is read back. */
  lemma FreshStoreThenRead(sealed: string, step: nat)
    requires step > 0
    ensures Joined(Stored(map[], sealed, 0, step), 0) ==
      if |sealed| % step != 0 && !EndsWith(Remainder(sealed, step), CONTINUE_MARKER) then Some(sealed) else None
  {
    ChunksExact(sealed, step);
    StoreThenRead(map[], sealed, step);
    StoredReads(map[], sealed, 0, step);
  }

  /** What an exact multiple reads back as on a keyring that held a longer value: the new text, and the
      old entries behind it. */
  lemma StaleTail(passwords: Passwords, sealed: string, step: nat, tail: string)
    requires step > 0 && Remainder(sealed, step) == "" && Joined(passwords, Chunks(sealed, step)) == Some(tail)
    ensures Joined(Stored(passwords, sealed, 0, step), 0) == Some(sealed + tail)
  {
    FrontAndRemainder(sealed, step);
    StoredReads(passwords, sealed, 0, step);
    assert sealed == Front(sealed, step) + "" == Front(sealed, step);
  }

  /** From the entry where a shorter value of full chunks ends, a longer one reads as its own rest. */
  lemma {:induction false} LongerReads(passwords: Passwords, older: string, sealed: string, k: nat, step: nat)
    requires step > 0 && |sealed| < |older| && Remainder(sealed, step) == ""
    requires Remainder(older, step) != "" && !EndsWith(Remainder(older, step), CONTINUE_MARKER)
    ensures Joined(Stored(passwords, older, k, step), k + Chunks(sealed, step)) == Some(older[|sealed|..])
    decreases |sealed|
  {
    if |sealed| < step {
      StoredReads(passwords, older, k, step);
      FrontAndRemainder(older, step);
      assert older[|sealed|..] == older;
    } else {
      LongerReads(passwords[k := older[..step] + CONTINUE_MARKER], older[step..], sealed[step..], k + 1, step);
      assert older[step..][|sealed[step..]|..] == older[|sealed|..];
    }
  }

  /** So a value of full chunks stored over a longer one reads back with the end of the longer one. */
  lemma OverwriteLonger(passwords: Passwords, older: string, sealed: string, step: nat)
    requires step > 0 && |sealed| < |older| && Remainder(sealed, step) == ""
    requires Remainder(older, step) != "" && !EndsWith(Remainder(older, step), CONTINUE_MARKER)
    ensures Joined(Stored(Stored(passwords, older, 0, step), sealed, 0, step), 0) == Some(sealed + older[|sealed|..])
  {
    LongerReads(passwords, older, sealed, 0, step);
    StaleTail(Stored(passwords, older, 0, step), sealed, step, older[|sealed|..]);
  }

  /** Every entry written fits the limit. */
  lemma {:induction false} EntriesFit(passwords: Passwords, sealed: string, k: nat, step: nat, j: nat)
    requires step > 0 && j in Stored(passwords, sealed, k, step)
    requires j in passwords ==> |passwords[j]| <= step + |CONTINUE_MARKER|
    ensures |Stored(passwords, sealed, k, step)[j]| <= step + |CONTINUE_MARKER|
    decreases |sealed|
  {
    if |sealed| >= step {
      EntriesFit(passwords[k := sealed[..step] + CONTINUE_MARKER], sealed[step..], k + 1, step, j);
    }
  }

  /** Reading gets as far as entry j: those before it are there, can be read, and end with the marker. */
  ghost predicate ReadsTo(passwords: Passwords, broken: set<nat>, j: nat) {
    forall i: nat :: i < j ==> i in passwords && i !in broken && EndsWith(passwords[i], CONTINUE_MARKER)
  }

  ghost predicate FirstIn(broken: set<nat>, k: nat) {
    k in broken && forall j: nat :: j < k ==> j !in broken
  }

  /** The system keyring. Access to an entry in `broken` fails. */
  class SystemKeyring {
    var passwords: Passwords
    const broken: set<nat>

    constructor (passwords: Passwords, broken: set<nat>)
      ensures this.passwords == passwords && this.broken == broken
    {
      this.passwords, this.broken := passwords, broken;
    }
  }

  class KeyringStorage {
    const keyring: SystemKeyring
    const limit: nat
    /** Handles of the entries used so far: the number of each. */
    var entries: seq<nat>

    ghost predicate Valid()
      reads this
    {
      limit > |CONTINUE_MARKER| && forall i :: 0 <= i < |entries| ==> entries[i] == i
    }

    constructor (keyring: SystemKeyring, limit: nat)
      requires limit > |CONTINUE_MARKER|
      ensures this.keyring == keyring && this.limit == limit && Valid() && entries == []
    {
      this.keyring, this.limit, entries := keyring, limit, [];
    }

    /** The handle of entry i, made if it is the next one. */
    method GetNextEntry(i: nat) returns (entry: nat)
      requires Valid() && i <= |entries|
      modifies this
      ensures Valid() && entry == i < |entries| && old(entries) <= entries
    {
      if i == |entries| {
        entries := entries + [i];
      }
      entry := entries[i];
    }

    method Store(sealed: string) returns (ok: bool)
      requires Valid()
      modifies this, keyring
      ensures Valid()
      ensures ok ==> keyring.passwords == Stored(old(keyring.passwords), sealed, 0, limit - |CONTINUE_MARKER|)
      ensures ok <==> forall k: nat :: k < Entries(sealed, limit - |CONTINUE_MARKER|) ==> k !in keyring.broken
      // a failure leaves the entries before the broken one written and the others as they were
      ensures !ok ==> exists k :: FirstIn(keyring.broken, k) && Mixed(keyring.passwords,
        Stored(old(keyring.passwords), sealed, 0, limit - |CONTINUE_MARKER|), old(keyring.passwords), k)
    {
      var stepSize := limit - |CONTINUE_MARKER|;
      var i, k := 0, 0;
      while i < |sealed|
        invariant Valid() && k <= |entries| && 0 <= i
        invariant forall j: nat :: j >= k ==> SameAt(keyring.passwords, old(keyring.passwords), j)
        invariant Stored(keyring.passwords, if i <= |sealed| then sealed[i..] else "", k, stepSize)
               == Stored(old(keyring.passwords), sealed, 0, stepSize)
        invariant k + Entries(if i <= |sealed| then sealed[i..] else "", stepSize) == Entries(sealed, stepSize)
        invariant forall j: nat :: j < k ==> j !in keyring.broken
      {
        var entry := GetNextEntry(k);
        if entry in keyring.broken {
          StoredKeepsAll(keyring.passwords, sealed[i..], k, stepSize);
          assert FirstIn(keyring.broken, k);
          assert Mixed(keyring.passwords, Stored(old(keyring.passwords), sealed, 0, stepSize), old(keyring.passwords), k);
          return false;
        }
        var cutoff := i + stepSize;
        ghost var before := keyring.passwords;
        if cutoff <= |sealed| {
          assert sealed[i..][..stepSize] == sealed[i..cutoff] && sealed[i..][stepSize..] == sealed[cutoff..];
          keyring.passwords := keyring.passwords[entry := sealed[i..cutoff] + CONTINUE_MARKER];
        } else {
          keyring.passwords := keyring.passwords[entry := sealed[i..]];
        }
        forall j: nat | j >= k + 1 ensures SameAt(keyring.passwords, old(keyring.passwords), j) {
          assert SameAt(before, old(keyring.passwords), j);
        }
        i, k := i + stepSize, k + 1;
      }
      return true;
    }

    method Read() returns (r: ReadResult)
      requires Valid()
      modifies this
      ensures Valid() && old(entries) <= entries
      ensures r.Failed? <==> exists j :: j in keyring.broken && ReadsTo(keyring.passwords, keyring.broken, j)
      ensures !r.Failed? ==> Joined(keyring.passwords, 0) == if r.Sealed? then Some(r.sealed) else None
    {
      var str := "";
      var i := 0;
      PrependedNothing(Joined(keyring.passwords, 0));
      while true
        invariant Valid() && i <= |entries| && old(entries) <= entries
        invariant ReadsTo(keyring.passwords, keyring.broken, i)
        invariant Joined(keyring.passwords, 0) == Prepended(str, Joined(keyring.passwords, i))
        decreases From(keyring.passwords, i)
      {
        var entry := GetNextEntry(i);
        if entry in keyring.broken {
          return Failed;
        }
        if entry !in keyring.passwords {
          return Missing;
        }
        var nextChunk := keyring.passwords[entry];
        if !EndsWith(nextChunk, CONTINUE_MARKER) {
          return Sealed(str + nextChunk);
        }
        FromShrinks(keyring.passwords, i);
        PrependedTwice(str, nextChunk[..|nextChunk| - |CONTINUE_MARKER|], Joined(keyring.passwords, i + 1));
        str := str + nextChunk[..|nextChunk| - |CONTINUE_MARKER|];
        i := i + 1;
      }
    }
  }
}
