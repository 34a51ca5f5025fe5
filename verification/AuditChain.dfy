/** The evidence chain: sealing, appending and verifying. */
module AuditChain {
  import opened Options
  import opened DecimalText
  import opened CanonicalJson

  /** What the host supplies: the hash function, SHA-256 in hexadecimal, and the
      collation by which keys are compared. */
  datatype Digest = Digest(hash: string -> string, collation: Collation)

  const GENESIS := "genesis"

  datatype Sealed = Sealed(record: Json, instance: string, sequence: int, previousHash: string, hash: string)

  /** What is hashed: place, sealing instance, link and content, separated by a
      character that delimits them. */
  function Preimage(c: Collation, record: Json, instance: string, sequence: int, previousHash: string): string {
    IntText(sequence) + "\0" + instance + "\0" + previousHash + "\0" + Canonical(c, record)
  }

  function SealHash(digest: Digest, record: Json, instance: string, sequence: int, previousHash: string): string {
    digest.hash(Preimage(digest.collation, record, instance, sequence, previousHash))
  }

  // ------------------------------------------------------------- no forged preimage

  lemma SplitFirst(a: string, x: string, b: string, y: string)
    requires '\0' !in a && '\0' !in b && a + "\0" + x == b + "\0" + y
    ensures a == b && x == y
  {
    var p := a + "\0" + x;
    assert forall i :: 0 <= i < |a| ==> p[i] == a[i];
    assert forall i :: 0 <= i < |b| ==> p[i] == b[i];
    assert p[|a|] == '\0' && p[|b|] == '\0';
    assert |a| == |b|;
    assert a == p[..|a|] == b;
    assert x == p[|a| + 1..] == y;
  }

  lemma SplitLast(x: string, a: string, y: string, b: string)
    requires '\0' !in a && '\0' !in b && x + "\0" + a == y + "\0" + b
    ensures x == y && a == b
  {
    var p := x + "\0" + a;
    assert forall i :: |x| < i < |p| ==> p[i] == a[i - |x| - 1];
    assert forall i :: |y| < i < |p| ==> p[i] == b[i - |y| - 1];
    assert p[|x|] == '\0' && p[|y|] == '\0';
    assert |x| == |y|;
    assert x == p[..|x|] == y;
    assert a == p[|x| + 1..] == b;
  }

  /** The pieces of a text between the delimiting characters. */
  function Pieces(s: string): seq<string>
    decreases |s|
  {
    var head := UpTo(s, '\0');
    if |head| == |s| then [s] else [head] + Pieces(s[|head| + 1..])
  }

  lemma FirstPiece(a: string, x: string)
    requires '\0' !in a
    ensures Pieces(a + "\0" + x) == [a] + Pieces(x) && Pieces(a) == [a]
  {
    hide UpTo;
    var s := a + "\0" + x;
    var head := UpTo(s, '\0');
    assert s[|a|] == '\0' && head != s;
    assert s == head + "\0" + s[|head| + 1..];
    SplitFirst(a, x, head, s[|head| + 1..]);
    WholePiece(a);
  }

  lemma {:induction false} WholePiece(a: string)
    requires '\0' !in a
    ensures UpTo(a, '\0') == a
  {
    if a != "" {
      assert forall c :: c in a[1..] ==> c in a;
      WholePiece(a[1..]);
    }
  }

  /** Cut at the delimiting characters, the hashed text is the place in digits, the
      instance, the link and the content, in this order. */
  lemma PreimagePieces(c: Collation, record: Json, instance: string, sequence: int, previousHash: string)
    requires WellFormed(record) && '\0' !in instance && '\0' !in previousHash
    ensures Pieces(Preimage(c, record, instance, sequence, previousHash))
      == [IntText(sequence), instance, previousHash, Canonical(c, record)]
  {
    hide Canonical, WellFormed, IntText, Pieces;
    var content := Canonical(c, record);
    IntTextHasNoSeparator(sequence);
    CanonicalHasNoSeparator(c, record);
    Regrouped(IntText(sequence), instance, previousHash, content);
    FirstPiece(IntText(sequence), instance + "\0" + previousHash + "\0" + content);
    assert instance + "\0" + previousHash + "\0" + content == instance + "\0" + (previousHash + "\0" + content);
    FirstPiece(instance, previousHash + "\0" + content);
    FirstPiece(previousHash, content);
    FirstPiece(content, "");
  }

  lemma IntTextHead(n: int)
    ensures IntText(n) != "" && (IntText(n)[0] == '-' <==> n < 0)
  {
    hide NatText;
  }

  lemma IntTextTells(m: int, n: int)
    requires IntText(m) == IntText(n)
    ensures m == n
  {
    IntTextHead(m);
    IntTextHead(n);
    hide NatText, DigitsValue;
    NatTextValue(if m < 0 then -m else m);
    NatTextValue(if n < 0 then -n else n);
    if m < 0 {
      assert IntText(m)[1..] == NatText(-m) && IntText(n)[1..] == NatText(-n);
    }
  }

  lemma IntTextHasNoSeparator(n: int)
    ensures '\0' !in IntText(n)
  {
    hide NatText;
  }

  lemma Regrouped(a: string, b: string, c: string, d: string)
    ensures a + "\0" + b + "\0" + c + "\0" + d == a + "\0" + (b + "\0" + c + "\0" + d)
  {
  }

  /** The hashed text determines place, instance, link and canonical text, whatever
      the instance is called: it is the same exactly when they are. */
  lemma {:induction false} PreimageParts(c: Collation, r: Json, i: string, n: int, p: string, r': Json, i': string,
                                         n': int, p': string)
    requires WellFormed(r) && WellFormed(r') && '\0' !in p && '\0' !in p'
    ensures Preimage(c, r, i, n, p) == Preimage(c, r', i', n', p')
      <==> n == n' && i == i' && p == p' && Canonical(c, r) == Canonical(c, r')
  {
    hide Canonical, WellFormed, IntText;
    if Preimage(c, r, i, n, p) == Preimage(c, r', i', n', p') {
      var a, b := Canonical(c, r), Canonical(c, r');
      IntTextHasNoSeparator(n);
      IntTextHasNoSeparator(n');
      CanonicalHasNoSeparator(c, r);
      CanonicalHasNoSeparator(c, r');
      Regrouped(IntText(n), i, p, a);
      Regrouped(IntText(n'), i', p', b);
      SplitFirst(IntText(n), i + "\0" + p + "\0" + a, IntText(n'), i' + "\0" + p' + "\0" + b);
      SplitLast(i + "\0" + p, a, i' + "\0" + p', b);
      SplitLast(i, p, i', p');
      IntTextTells(n, n');
    }
  }

  /** No two different pieces of evidence are hashed over one text; and unless keys
      of the record tie, the same evidence always is. */
  lemma {:induction false} PreimageTells(c: Collation, r: Json, i: string, n: int, p: string, r': Json, i': string,
                                         n': int, p': string)
    requires WellFormed(r) && WellFormed(r') && '\0' !in p && '\0' !in p'
    ensures Preimage(c, r, i, n, p) == Preimage(c, r', i', n', p')
      ==> n == n' && i == i' && p == p' && Meaning(r) == Meaning(r')
    ensures Tieless(c, r) && n == n' && i == i' && p == p' && Meaning(r) == Meaning(r')
      ==> Preimage(c, r, i, n, p) == Preimage(c, r', i', n', p')
  {
    PreimageParts(c, r, i, n, p, r', i', n', p');
    CanonicalTellsMeaning(c, r, r');
    hide Canonical, Meaning, WellFormed, Preimage, Tieless;
  }

  // --------------------------------------------------------------------- the chain

  ghost function PreviousHash(es: seq<Sealed>, i: nat): string
    requires i <= |es|
  {
    if i == 0 then GENESIS else es[i - 1].hash
  }

  /** Counted, linked and unaltered at its place. */
  ghost predicate LinkedAt(digest: Digest, es: seq<Sealed>, i: nat)
    requires i < |es|
  {
    var e := es[i];
    && e.sequence == i
    && e.previousHash == PreviousHash(es, i)
    && e.hash == SealHash(digest, e.record, e.instance, e.sequence, e.previousHash)
  }

  ghost predicate Chain(digest: Digest, es: seq<Sealed>) {
    forall i :: 0 <= i < |es| ==> LinkedAt(digest, es, i)
  }

  /** The longest prefix that is a chain. */
  ghost predicate LongestChain(digest: Digest, es: seq<Sealed>, n: int) {
    && 0 <= n <= |es|
    && Chain(digest, es[..n])
    && forall m :: n < m <= |es| ==> !Chain(digest, es[..m])
  }

  lemma PrefixLink(digest: Digest, es: seq<Sealed>, n: nat, i: nat)
    requires i < n <= |es|
    ensures LinkedAt(digest, es[..n], i) <==> LinkedAt(digest, es, i)
  {
    assert es[..n][i] == es[i];
  }

  lemma StopsAt(digest: Digest, es: seq<Sealed>, n: nat)
    requires n <= |es| && (forall i :: 0 <= i < n ==> LinkedAt(digest, es, i))
    requires n < |es| ==> !LinkedAt(digest, es, n)
    ensures LongestChain(digest, es, n)
  {
    hide LinkedAt;
    forall i | 0 <= i < n ensures LinkedAt(digest, es[..n], i) { PrefixLink(digest, es, n, i); }
    forall m | n < m <= |es| ensures !Chain(digest, es[..m]) {
      PrefixLink(digest, es, m, n);
    }
  }

  // ------------------------------------------------------------------- the engine

  datatype Fault = OutOfSequence | NotLinked | Altered

  datatype Verification =
    | Unbroken(recordsChecked: int)
    | Broken(brokenAt: int, fault: Fault, recordsChecked: int)

  /** The entry that `record` appends. */
  function Seal(digest: Digest, instance: string, es: seq<Sealed>, record: Json): Sealed {
    var previous := if es == [] then GENESIS else es[|es| - 1].hash;
    Sealed(record, instance, |es|, previous, SealHash(digest, record, instance, |es|, previous))
  }

  /** A sealed entry holds what was submitted, linked at its place. */
  lemma SealLinks(digest: Digest, instance: string, es: seq<Sealed>, record: Json)
    ensures var r := es + [Seal(digest, instance, es, record)];
      && LinkedAt(digest, r, |es|)
      && r[|es|].record == record && r[|es|].instance == instance
    ensures var e := Seal(digest, instance, es, record);
      && (es == [] ==> e.previousHash == "genesis")
      && e.hash == digest.hash(Preimage(digest.collation, e.record, e.instance, e.sequence, e.previousHash))
  {
    hide Preimage;
  }

  lemma SealExtends(digest: Digest, instance: string, es: seq<Sealed>, record: Json)
    requires Chain(digest, es)
    ensures Chain(digest, es + [Seal(digest, instance, es, record)])
  {
    var r := es + [Seal(digest, instance, es, record)];
    hide SealHash;
    forall i | 0 <= i < |r| ensures LinkedAt(digest, r, i) {
      if i < |es| { assert LinkedAt(digest, es, i); }
    }
  }

  /** The engine over its in-memory store. */
  class AuditLog {
    const digest: Digest
    const instance: string
    var entries: seq<Sealed>

    constructor (d: Digest, i: string)
      ensures digest == d && instance == i && entries == []
    {
      digest, instance, entries := d, i, [];
    }

    /** `store.lastHash()`. */
    function LastHash(): Option<string>
      reads this
    {
      if entries == [] then None else Some(entries[|entries| - 1].hash)
    }

    /** `record(input)`; `parsed` is the input after validation, nothing when refused. */
    method Record(parsed: Option<Json>) returns (accepted: Option<Sealed>)
      modifies this`entries
      ensures parsed.None? ==> accepted.None? && entries == old(entries)
      ensures parsed.Some? ==> accepted.Some? && entries == old(entries) + [accepted.value]
      ensures parsed.Some? ==> accepted.value.record == parsed.value && accepted.value.instance == instance
      ensures parsed.Some? ==> LinkedAt(digest, entries, |old(entries)|)
      ensures parsed.Some? && old(entries) == [] ==> accepted.value.previousHash == "genesis"
      ensures parsed.Some? ==> var e := accepted.value;
        e.hash == digest.hash(Preimage(digest.collation, e.record, e.instance, e.sequence, e.previousHash))
      ensures parsed.Some? ==> accepted == Some(Seal(digest, instance, old(entries), parsed.value))
      ensures Chain(digest, old(entries)) ==> Chain(digest, entries)
    {
      hide Chain, SealHash, Preimage, LinkedAt;
      if parsed.None? { return None; }
      SealLinks(digest, instance, entries, parsed.value);
      var sequence := |entries|;
      var last := LastHash();
      var previousHash := if last.Some? then last.value else GENESIS;
      var sealed := Sealed(parsed.value, instance, sequence, previousHash,
                           SealHash(digest, parsed.value, instance, sequence, previousHash));
      if Chain(digest, entries) { SealExtends(digest, instance, entries, parsed.value); }
      entries := entries + [sealed];
      accepted := Some(sealed);
    }

    /** `verify()`. */
    method Verify() returns (v: Verification)
      ensures v.Unbroken? <==> Chain(digest, entries)
      ensures LongestChain(digest, entries, v.recordsChecked)
      ensures v.Broken? ==> 0 <= v.recordsChecked < |entries| && var e := entries[v.recordsChecked];
        && v.brokenAt == e.sequence
        && v.fault == (if e.sequence != v.recordsChecked then OutOfSequence
                       else if e.previousHash != PreviousHash(entries, v.recordsChecked) then NotLinked
                       else Altered)
    {
      hide SealHash, LongestChain;
      var previousHash, expectedSequence := GENESIS, 0;
      for k := 0 to |entries|
        invariant expectedSequence == k && previousHash == PreviousHash(entries, k)
        invariant forall i :: 0 <= i < k ==> LinkedAt(digest, entries, i)
      {
        var entry := entries[k];
        if entry.sequence != expectedSequence {
          StopsAt(digest, entries, k);
          return Broken(entry.sequence, OutOfSequence, expectedSequence);
        }
        expectedSequence := expectedSequence + 1;
        if entry.previousHash != previousHash {
          StopsAt(digest, entries, k);
          return Broken(entry.sequence, NotLinked, entry.sequence);
        }
        var expected := SealHash(digest, entry.record, entry.instance, entry.sequence, entry.previousHash);
        if expected != entry.hash {
          StopsAt(digest, entries, k);
          return Broken(entry.sequence, Altered, entry.sequence);
        }
        previousHash := entry.hash;
      }
      StopsAt(digest, entries, |entries|);
      v := Unbroken(|entries|);
    }
  }

  // ------------------------------------------------------------------------- runs

  /** One call of `record`, by whichever engine holds the store. */
  datatype Submission = Submission(instance: string, parsed: Option<Json>)

  ghost function Run(digest: Digest, es: seq<Sealed>, calls: seq<Submission>): seq<Sealed> {
    if calls == [] then es
    else
      var before, c := Run(digest, es, calls[..|calls| - 1]), calls[|calls| - 1];
      if c.parsed.None? then before else before + [Seal(digest, c.instance, before, c.parsed.value)]
  }

  ghost function Accepted(calls: seq<Submission>): nat {
    if calls == [] then 0
    else Accepted(calls[..|calls| - 1]) + if calls[|calls| - 1].parsed.None? then 0 else 1
  }

  /** From an intact store, every run stays intact, only appends, and keeps one entry
      for each accepted call. */
  lemma {:induction false} RunsStayIntact(digest: Digest, es: seq<Sealed>, calls: seq<Submission>)
    requires Chain(digest, es)
    ensures Chain(digest, Run(digest, es, calls))
    ensures es <= Run(digest, es, calls) && |Run(digest, es, calls)| == |es| + Accepted(calls)
  {
    hide Chain, Seal;
    if calls != [] {
      RunsStayIntact(digest, es, calls[..|calls| - 1]);
      var before, c := Run(digest, es, calls[..|calls| - 1]), calls[|calls| - 1];
      if c.parsed.Some? { SealExtends(digest, c.instance, before, c.parsed.value); }
    }
  }

  /** The accepted submissions of a run, in order. */
  ghost function Kept(calls: seq<Submission>): (k: seq<Submission>)
    ensures |k| == Accepted(calls)
    ensures forall c :: c in k <==> c in calls && c.parsed.Some?
  {
    if calls == [] then []
    else
      var m, c := Kept(calls[..|calls| - 1]), calls[|calls| - 1];
      assert forall x :: x in calls <==> x in calls[..|calls| - 1] || x == c;
      if c.parsed.Some? then m + [c] else m
  }

  /** What a run appends are the submissions it accepted, each once, in order, with
      the instance that submitted it. */
  lemma {:induction false} RunKeepsSubmissions(digest: Digest, es: seq<Sealed>, calls: seq<Submission>)
    ensures var t, k := Run(digest, es, calls), Kept(calls);
      && |t| == |es| + |k| && t[..|es|] == es
      && forall i :: 0 <= i < |k| ==> Some(t[|es| + i].record) == k[i].parsed && t[|es| + i].instance == k[i].instance
  {
    if calls != [] {
      var m, c := calls[..|calls| - 1], calls[|calls| - 1];
      RunKeepsSubmissions(digest, es, m);
      if c.parsed.Some? { SealLinks(digest, c.instance, Run(digest, es, m), c.parsed.value); }
      hide Seal, LinkedAt;
    }
  }

  // ----------------------------------------------------------------- tamper evidence

  ghost function PreimageOf(c: Collation, e: Sealed): string {
    Preimage(c, e.record, e.instance, e.sequence, e.previousHash)
  }

  /** No two entries of the two stores hash alike by accident. */
  ghost predicate NoCollision(digest: Digest, a: seq<Sealed>, b: seq<Sealed>) {
    forall e, f :: e in a && f in b ==>
      var x, y := PreimageOf(digest.collation, e), PreimageOf(digest.collation, f);
      digest.hash(x) == digest.hash(y) ==> x == y
  }

  ghost predicate Printable(digest: Digest, es: seq<Sealed>) {
    && (forall s :: '\0' !in digest.hash(s))
    && (forall e :: e in es ==> WellFormed(e.record))
  }

  /** Equal in everything the hash covers. */
  ghost predicate SameEvidence(e: Sealed, f: Sealed) {
    && Meaning(e.record) == Meaning(f.record)
    && e.instance == f.instance && e.sequence == f.sequence
    && e.previousHash == f.previousHash && e.hash == f.hash
  }

  lemma LinkFacts(digest: Digest, es: seq<Sealed>, i: nat)
    requires Chain(digest, es) && Printable(digest, es) && i < |es|
    ensures es[i].sequence == i && es[i].previousHash == PreviousHash(es, i)
    ensures es[i].hash == digest.hash(PreimageOf(digest.collation, es[i]))
    ensures '\0' !in es[i].previousHash && WellFormed(es[i].record)
  {
    hide Preimage, WellFormed;
    assert LinkedAt(digest, es, i);
    if i > 0 { assert LinkedAt(digest, es, i - 1); }
  }

  /** Entries with one hash are the same evidence. */
  lemma SameHashSameEvidence(digest: Digest, a: seq<Sealed>, b: seq<Sealed>, i: nat, j: nat)
    requires Chain(digest, a) && Chain(digest, b)
    requires Printable(digest, a) && Printable(digest, b) && NoCollision(digest, a, b)
    requires i < |a| && j < |b| && a[i].hash == b[j].hash
    ensures SameEvidence(a[i], b[j])
  {
    LinkFacts(digest, a, i);
    LinkFacts(digest, b, j);
    hide Chain, Printable, Preimage, WellFormed, Meaning;
    assert a[i] in a && b[j] in b;
    var e, f := a[i], b[j];
    PreimageTells(digest.collation, e.record, e.instance, e.sequence, e.previousHash,
                  f.record, f.instance, f.sequence, f.previousHash);
  }

  lemma PreviousAgree(e: Sealed, f: Sealed)
    requires SameEvidence(e, f)
    ensures e.previousHash == f.previousHash && e.sequence == f.sequence
  {
  }

  lemma {:induction false} SameUpTo(digest: Digest, a: seq<Sealed>, b: seq<Sealed>, n: nat)
    requires Chain(digest, a) && Chain(digest, b)
    requires Printable(digest, a) && Printable(digest, b) && NoCollision(digest, a, b)
    requires 0 < n <= |a| && n <= |b| && a[n - 1].hash == b[n - 1].hash
    ensures forall i :: 0 <= i < n ==> SameEvidence(a[i], b[i])
  {
    hide SealHash, Preimage, Meaning, WellFormed;
    SameHashSameEvidence(digest, a, b, n - 1, n - 1);
    LinkFacts(digest, a, n - 1);
    LinkFacts(digest, b, n - 1);
    PreviousAgree(a[n - 1], b[n - 1]);
    hide Chain, Printable, NoCollision, SameEvidence;
    if n > 1 { SameUpTo(digest, a, b, n - 1); }
  }

  /** The last hash fixes the whole history: two stores that verify and end in the
      same hash hold the same evidence, entry by entry. */
  lemma LastHashFixesHistory(digest: Digest, a: seq<Sealed>, b: seq<Sealed>)
    requires Chain(digest, a) && Chain(digest, b)
    requires Printable(digest, a) && Printable(digest, b) && NoCollision(digest, a, b)
    requires a != [] && b != [] && a[|a| - 1].hash == b[|b| - 1].hash
    ensures |a| == |b| && forall i :: 0 <= i < |a| ==> SameEvidence(a[i], b[i])
  {
    hide SealHash, Preimage, Meaning, WellFormed;
    SameHashSameEvidence(digest, a, b, |a| - 1, |b| - 1);
    LinkFacts(digest, a, |a| - 1);
    LinkFacts(digest, b, |b| - 1);
    PreviousAgree(a[|a| - 1], b[|b| - 1]);
    hide Chain, Printable, NoCollision, SameEvidence;
    SameUpTo(digest, a, b, |a|);
  }

  /** What `verify` alone cannot see: a store cut short still verifies. Only a last
      hash or a count kept elsewhere shows the missing tail. */
  lemma CutShortStillVerifies(digest: Digest, es: seq<Sealed>, n: nat)
    requires Chain(digest, es) && n <= |es|
    ensures Chain(digest, es[..n])
  {
    hide LinkedAt;
    forall i | 0 <= i < n ensures LinkedAt(digest, es[..n], i) { PrefixLink(digest, es, n, i); }
  }

  /** Differing at most in how their records list their fields. */
  ghost predicate SameRecords(es: seq<Sealed>, fs: seq<Sealed>) {
    && |es| == |fs|
    && forall i :: 0 <= i < |es| ==>
      fs[i] == es[i].(record := fs[i].record) && WellFormed(es[i].record) && WellFormed(fs[i].record)
      && Meaning(fs[i].record) == Meaning(es[i].record)
  }

  /** A store that gives records back with their fields in another order still
      verifies, as long as no keys tie. */
  lemma {:induction false} FieldOrderKeepsChain(digest: Digest, es: seq<Sealed>, fs: seq<Sealed>)
    requires Chain(digest, es) && SameRecords(es, fs)
    requires forall i :: 0 <= i < |es| ==> Tieless(digest.collation, es[i].record)
    ensures Chain(digest, fs)
  {
    hide Canonical, Meaning, WellFormed, Tieless;
    forall i | 0 <= i < |fs| ensures LinkedAt(digest, fs, i) {
      assert LinkedAt(digest, es, i);
      CanonicalTellsMeaning(digest.collation, es[i].record, fs[i].record);
    }
  }
}
