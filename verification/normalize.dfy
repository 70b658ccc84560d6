/** Normalization of module ids: the repeated replacements on the string, and the one-pass resolution of
    `.` and `..` they amount to. */
module ModuleIds {

  predicate NoSlash(s: string) {
    forall i :: 0 <= i < |s| ==> s[i] != '/'
  }

  function Lengthen(c: char, segments: seq<string>): seq<string>
    requires |segments| > 0
  {
    [[c] + segments[0]] + segments[1..]
  }

  /** The segments between the slashes: one more than there are slashes. */
  function Split(s: string): (segments: seq<string>)
    ensures |segments| > 0 && forall i :: 0 <= i < |segments| ==> NoSlash(segments[i])
  {
    if s == "" then [""]
    else if s[0] == '/' then [""] + Split(s[1..])
    else Lengthen(s[0], Split(s[1..]))
  }

  function Join(segments: seq<string>): string
    requires |segments| > 0
  {
    if |segments| == 1 then segments[0] else segments[0] + "/" + Join(segments[1..])
  }

  lemma {:induction false} JoinSplit(s: string)
    ensures Join(Split(s)) == s
  {
    if s != "" {
      JoinSplit(s[1..]);
      var rest := Split(s[1..]);
      if s[0] == '/' {
        assert ([""] + rest)[1..] == rest;
      } else {
        assert Lengthen(s[0], rest)[1..] == rest[1..];
        assert s == [s[0]] + s[1..];
      }
    }
  }

  lemma SplitCons(c: char, s: string)
    ensures Split([c] + s) == if c == '/' then [""] + Split(s) else Lengthen(c, Split(s))
  {
  }

  lemma LengthenAppend(c: char, a: seq<string>, b: seq<string>)
    requires |a| > 0
    ensures Lengthen(c, a + b) == Lengthen(c, a) + b
  {
  }

  lemma {:induction false} SplitAt(a: string, b: string)
    ensures Split(a + "/" + b) == Split(a) + Split(b)
  {
    if a == "" {
      assert a + "/" + b == ['/'] + b;
      SplitCons('/', b);
    } else {
      var rest := a[1..] + "/" + b;
      assert a + "/" + b == [a[0]] + rest && a == [a[0]] + a[1..];
      SplitAt(a[1..], b);
      SplitCons(a[0], rest);
      SplitCons(a[0], a[1..]);
      LengthenAppend(a[0], Split(a[1..]), Split(b));
    }
  }

  lemma {:induction false} SplitSegment(s: string)
    requires NoSlash(s)
    ensures Split(s) == [s]
  {
    if s != "" {
      SplitSegment(s[1..]);
      assert s == [s[0]] + s[1..];
    }
  }

  lemma {:induction false} JoinAppend(a: seq<string>, b: seq<string>)
    requires |a| > 0 && |b| > 0
    ensures Join(a + b) == Join(a) + "/" + Join(b)
  {
    if |a| == 1 {
      assert (a + b)[1..] == b;
    } else {
      assert (a + b)[1..] == a[1..] + b;
      JoinAppend(a[1..], b);
    }
  }

  /** A segment that the pattern for a name matches: one character, two that are not `..`, or more. */
  predicate IsName(segment: string) {
    |segment| == 1 || (|segment| == 2 && (segment[0] != '.' || segment[1] != '.')) || |segment| > 2
  }

  /** One step of the one-pass resolution. */
  function Push(stack: seq<string>, segment: string): seq<string> {
    if segment == "." then stack
    else if segment == ".." && stack != [] && IsName(stack[|stack| - 1]) then stack[..|stack| - 1]
    else stack + [segment]
  }

  function PushAll(stack: seq<string>, segments: seq<string>): seq<string>
    decreases |segments|
  {
    if segments == [] then stack else PushAll(Push(stack, segments[0]), segments[1..])
  }

  /** All segments but the last are resolved; the last stays whatever it is. */
  function Resolve(segments: seq<string>): (r: seq<string>)
    requires |segments| > 0
    ensures |r| > 0
  {
    PushAll([], segments[..|segments| - 1]) + [segments[|segments| - 1]]
  }

  lemma {:induction false} PushAppend(stack: seq<string>, a: seq<string>, b: seq<string>)
    ensures PushAll(stack, a + b) == PushAll(PushAll(stack, a), b)
    decreases |a|
  {
    if a == [] {
      assert a + b == b;
    } else {
      assert (a + b)[1..] == a[1..] + b;
      PushAppend(Push(stack, a[0]), a[1..], b);
    }
  }

  /** Segments that leave every stack as it is can be dropped in front of the last segment. */
  lemma ResolveDrops(a: seq<string>, idle: seq<string>, b: seq<string>)
    requires |b| > 0
    requires forall stack :: PushAll(stack, idle) == stack
    ensures Resolve(a + idle + b) == Resolve(a + b)
  {
    var front := b[..|b| - 1];
    assert (a + idle + b)[..|a + idle + b| - 1] == (a + idle) + front;
    assert (a + b)[..|a + b| - 1] == a + front;
    PushAppend([], a + idle, front);
    PushAppend([], a, idle);
    PushAppend([], a, front);
  }

  lemma ResolveDropsHead(idle: seq<string>, b: seq<string>)
    requires |b| > 0
    requires forall stack :: PushAll(stack, idle) == stack
    ensures Resolve(idle + b) == Resolve(b)
  {
    ResolveDrops([], idle, b);
    assert [] + idle + b == idle + b && [] + b == b;
  }

  lemma DotIdle()
    ensures forall stack :: PushAll(stack, ["."]) == stack
  {
  }

  lemma PushPair(stack: seq<string>, a: string, b: string)
    ensures PushAll(stack, [a, b]) == Push(Push(stack, a), b)
  {
    assert [a, b][0] == a && [a, b][1..] == [b] && [b][1..] == [];
    assert PushAll(stack, [a, b]) == PushAll(Push(stack, a), [b]);
  }

  lemma PairIdle(name: string)
    requires IsName(name) && name != "."
    ensures forall stack :: PushAll(stack, [name, ".."]) == stack
  {
    forall stack ensures PushAll(stack, [name, ".."]) == stack {
      assert name != ".." && ".." != ".";
      assert (stack + [name])[..|stack|] == stack;
      PushPair(stack, name, "..");
    }
  }

  /** Nothing left to resolve: in front of the last segment no `.`, and no name before a `..`. */
  predicate Resolved(segments: seq<string>)
    requires |segments| > 0
  {
    NoDot(segments) && forall i :: 0 <= i < |segments| - 2 ==> !(IsName(segments[i]) && segments[i + 1] == "..")
  }

  predicate NoDot(segments: seq<string>)
    requires |segments| > 0
  {
    forall i :: 0 <= i < |segments| - 1 ==> segments[i] != "."
  }

  lemma {:induction false} PrefixStays(segments: seq<string>, k: nat)
    requires |segments| > 0 && Resolved(segments) && k < |segments|
    ensures PushAll([], segments[..k]) == segments[..k]
  {
    if k > 0 {
      PrefixStays(segments, k - 1);
      PrefixGrows(segments, k);
      PushOne(segments[..k - 1], segments[k - 1]);
      PushAppend([], segments[..k - 1], [segments[k - 1]]);
    }
  }

  lemma PrefixGrows(segments: seq<string>, k: nat)
    requires 0 < k <= |segments|
    ensures segments[..k] == segments[..k - 1] + [segments[k - 1]]
  {
  }

  lemma PushOne(stack: seq<string>, segment: string)
    ensures PushAll(stack, [segment]) == Push(stack, segment)
  {
    assert [segment][0] == segment && [segment][1..] == [];
  }

  lemma ResolvedStays(segments: seq<string>)
    requires |segments| > 0 && Resolved(segments)
    ensures Resolve(segments) == segments
  {
    PrefixStays(segments, |segments| - 1);
  }

  /** The stack never holds what could be resolved further. */
  ghost predicate Settled(stack: seq<string>) {
    (forall i :: 0 <= i < |stack| ==> stack[i] != ".")
    && forall i :: 0 <= i < |stack| - 1 ==> !(IsName(stack[i]) && stack[i + 1] == "..")
  }

  lemma {:induction false} PushAllSettled(stack: seq<string>, segments: seq<string>)
    requires Settled(stack)
    ensures Settled(PushAll(stack, segments))
    decreases |segments|
  {
    if segments != [] {
      PushAllSettled(Push(stack, segments[0]), segments[1..]);
    }
  }

  /** The directory reached from `base`: `..` goes up, staying at the root, and names go down. */
  function Walk(base: seq<string>, segments: seq<string>): seq<string>
    decreases |segments|
  {
    if segments == [] then base else Walk(Stride(base, segments[0]), segments[1..])
  }

  function Stride(base: seq<string>, segment: string): seq<string> {
    if segment == "." || segment == "" then base
    else if segment == ".." then if base == [] then [] else base[..|base| - 1]
    else base + [segment]
  }

  lemma {:induction false} WalkAppend(base: seq<string>, a: seq<string>, b: seq<string>)
    ensures Walk(base, a + b) == Walk(Walk(base, a), b)
    decreases |a|
  {
    if a == [] {
      assert a + b == b;
    } else {
      assert (a + b)[1..] == a[1..] + b;
      WalkAppend(Stride(base, a[0]), a[1..], b);
    }
  }

  lemma WalkOne(base: seq<string>, stack: seq<string>, segment: string)
    ensures Walk(base, stack + [segment]) == Stride(Walk(base, stack), segment)
  {
    assert [segment][1..] == [];
    WalkAppend(base, stack, [segment]);
  }

  lemma PushLeads(base: seq<string>, stack: seq<string>, segment: string)
    requires Settled(stack)
    ensures Walk(base, Push(stack, segment)) == Stride(Walk(base, stack), segment)
  {
    WalkOne(base, stack, segment);
    if stack != [] {
      var below, top := stack[..|stack| - 1], stack[|stack| - 1];
      assert stack == below + [top];
      WalkOne(base, below, top);
      assert top != "." && (IsName(top) ==> top != ".." && top != "");
    }
  }

  lemma {:induction false} PushAllLeads(base: seq<string>, stack: seq<string>, segments: seq<string>)
    requires Settled(stack)
    ensures Walk(base, PushAll(stack, segments)) == Walk(Walk(base, stack), segments)
    decreases |segments|
  {
    if segments != [] {
      PushLeads(base, stack, segments[0]);
      PushAllSettled(stack, segments[..1]);
      assert segments[..1][1..] == [];
      PushAllLeads(base, Push(stack, segments[0]), segments[1..]);
    }
  }

  lemma SettledResolved(stack: seq<string>, last: string)
    requires Settled(stack)
    ensures Resolved(stack + [last])
  {
  }

  lemma ResolveSettles(segments: seq<string>)
    requires |segments| > 0
    ensures Resolved(Resolve(segments))
  {
    var front := segments[..|segments| - 1];
    PushAllSettled([], front);
    SettledResolved(PushAll([], front), segments[|segments| - 1]);
  }

  lemma ResolveLeads(front: seq<string>, last: string, base: seq<string>)
    ensures Walk(base, PushAll([], front) + [last]) == Walk(base, front + [last])
  {
    PushAllLeads(base, [], front);
    WalkOne(base, PushAll([], front), last);
    WalkOne(base, front, last);
  }

  /** The one-pass resolution leaves nothing to resolve and leads to the same place from everywhere. */
  lemma ResolveMeaning(segments: seq<string>, base: seq<string>)
    requires |segments| > 0
    ensures Resolved(Resolve(segments))
    ensures Walk(base, Resolve(segments)) == Walk(base, segments)
    ensures Resolve(segments)[|Resolve(segments)| - 1] == segments[|segments| - 1]
  {
    ResolveSettles(segments);
    ResolveLeads(segments[..|segments| - 1], segments[|segments| - 1], base);
    assert segments == segments[..|segments| - 1] + [segments[|segments| - 1]];
  }

  /** A second pass changes nothing. */
  lemma ResolveTwice(segments: seq<string>)
    requires |segments| > 0
    ensures Resolve(Resolve(segments)) == Resolve(segments)
  {
    ResolveMeaning(segments, []);
    ResolvedStays(Resolve(segments));
  }

  /** Without empty segments, every `..` that is left in front of the last segment leads. */
  lemma {:induction false} UpsLead(segments: seq<string>, i: nat, j: nat)
    requires |segments| > 0 && Resolved(segments) && forall k :: 0 <= k < |segments| ==> segments[k] != ""
    requires i <= j < |segments| - 1 && segments[j] == ".."
    ensures segments[i] == ".."
    decreases j
  {
    if i < j {
      assert segments[j - 1] == ".." by {
        assert !IsName(segments[j - 1]);
      }
      UpsLead(segments, i, j - 1);
    }
  }

  // The patterns

  predicate DotAt(r: string, p: nat) {
    p + 3 <= |r| && r[p..p + 3] == "/./"
  }

  /** A slash at p, then a name up to q, then a slash, two dots and a slash. */
  predicate UpAt(r: string, p: nat, q: nat) {
    p < q && q + 4 <= |r| && r[p] == '/' && NameUp(r, p + 1, q)
  }

  predicate NameUp(r: string, from: nat, q: nat) {
    from <= q && q + 4 <= |r| && NoSlash(r[from..q]) && IsName(r[from..q]) && r[q..q + 4] == "/../"
  }

  lemma DotSegments(r: string, p: nat)
    requires DotAt(r, p)
    ensures Split(r) == Split(r[..p]) + ["."] + Split(r[p + 3..])
    ensures Split(r[..p] + "/" + r[p + 3..]) == Split(r[..p]) + Split(r[p + 3..])
  {
    var a, b := r[..p], r[p + 3..];
    assert r == a + "/" + ("." + "/" + b);
    SplitAt(a, "." + "/" + b);
    SplitAt(".", b);
    SplitSegment(".");
    SplitAt(a, b);
  }

  lemma CutUp(r: string, from: nat, q: nat)
    requires NameUp(r, from, q)
    ensures r[from..] == r[from..q] + "/" + (".." + "/" + r[q + 4..])
  {
  }

  lemma SplitPair(name: string, b: string)
    requires NoSlash(name)
    ensures Split(name + "/" + (".." + "/" + b)) == [name, ".."] + Split(b)
  {
    SplitAt(name, ".." + "/" + b);
    SplitAt("..", b);
    SplitSegment(name);
    SplitSegment("..");
    Pair(name, "..", Split(b));
  }

  lemma Pair(x: string, y: string, rest: seq<string>)
    ensures [x] + ([y] + rest) == [x, y] + rest
  {
  }

  lemma NameSegments(r: string, from: nat, q: nat)
    requires NameUp(r, from, q)
    ensures Split(r[from..]) == [r[from..q], ".."] + Split(r[q + 4..])
  {
    CutUp(r, from, q);
    SplitPair(r[from..q], r[q + 4..]);
  }

  lemma UpSegments(r: string, p: nat, q: nat)
    requires UpAt(r, p, q)
    ensures Split(r) == Split(r[..p]) + [r[p + 1..q], ".."] + Split(r[q + 4..])
    ensures Split(r[..p] + "/" + r[q + 4..]) == Split(r[..p]) + Split(r[q + 4..])
  {
    NameSegments(r, p + 1, q);
    assert r == r[..p] + "/" + r[p + 1..];
    SplitAt(r[..p], r[p + 1..]);
    SplitAt(r[..p], r[q + 4..]);
  }

  lemma JoinAt(r: string, i: nat)
    requires 0 < i < |Split(r)|
    ensures r == Join(Split(r)[..i]) + "/" + Join(Split(r)[i..])
  {
    JoinSplit(r);
    assert Split(r) == Split(r)[..i] + Split(r)[i..];
    JoinAppend(Split(r)[..i], Split(r)[i..]);
  }

  /** A `.` between two other segments matches the first pattern. */
  lemma DotFound(r: string, i: nat)
    requires 0 < i < |Split(r)| - 1 && Split(r)[i] == "."
    ensures exists p :: DotAt(r, p)
  {
    var s := Split(r);
    JoinAt(r, i);
    assert s[i..][1..] == s[i + 1..];
    var a, b := Join(s[..i]), Join(s[i + 1..]);
    assert r == a + "/" + ("." + "/" + b);
    assert DotAt(r, |a|);
  }

  lemma NameFound(r: string, from: nat, s: seq<string>)
    requires |s| > 2 && IsName(s[0]) && NoSlash(s[0]) && s[1] == ".." && from <= |r| && r[from..] == Join(s)
    ensures NameUp(r, from, from + |s[0]|)
  {
  }

  /** A name between the first segment and a `..` that is not last matches the second pattern. */
  lemma UpFound(r: string, i: nat)
    requires 0 < i < |Split(r)| - 2 && IsName(Split(r)[i]) && Split(r)[i + 1] == ".."
    ensures exists p, q :: UpAt(r, p, q)
  {
    var s := Split(r);
    JoinAt(r, i);
    var a := Join(s[..i]);
    assert r[|a| + 1..] == Join(s[i..]);
    NameFound(r, |a| + 1, s[i..]);
    assert UpAt(r, |a|, |a| + 1 + |s[i]|);
  }

  // The code

  /** The first place where the pattern for a dot matches. */
  method MatchDot(r: string) returns (found: bool, p: nat)
    ensures found ==> DotAt(r, p) && forall k :: 0 <= k < p ==> !DotAt(r, k)
    ensures !found ==> forall k :: !DotAt(r, k)
  {
    p := 0;
    while p + 3 <= |r|
      invariant forall k :: 0 <= k < p ==> !DotAt(r, k)
    {
      if r[p..p + 3] == "/./" {
        return true, p;
      }
      p := p + 1;
    }
    found := false;
  }

  lemma NoSlashAt(r: string, from: nat, to: nat, i: nat)
    requires from <= i < to <= |r| && NoSlash(r[from..to])
    ensures r[i] != '/'
  {
  }

  lemma NameEnd(r: string, from: nat, q: nat, k: nat)
    requires from <= q <= |r| && NoSlash(r[from..q]) && (q < |r| ==> r[q] == '/') && NameUp(r, from, k)
    ensures k == q
  {
    assert r[k..k + 4][0] == r[k];
    if k < q {
      NoSlashAt(r, from, q, k);
    } else if q < k {
      NoSlashAt(r, from, k, q);
    }
  }

  /** The end of the name and whether the pattern for a name and `..` matches from here. */
  method MatchName(r: string, from: nat) returns (found: bool, q: nat)
    requires from <= |r|
    ensures found ==> NameUp(r, from, q)
    ensures !found ==> forall k :: !NameUp(r, from, k)
  {
    q := from;
    while q < |r| && r[q] != '/'
      invariant from <= q <= |r| && NoSlash(r[from..q])
    {
      assert r[from..q + 1] == r[from..q] + [r[q]];
      q := q + 1;
    }
    found := q + 4 <= |r| && IsName(r[from..q]) && r[q..q + 4] == "/../";
    if !found {
      forall k: nat | NameUp(r, from, k) ensures k == q {
        NameEnd(r, from, q, k);
      }
    }
  }

  /** The first place where the pattern for a slash, a name and `..` matches. */
  method MatchUp(r: string) returns (found: bool, p: nat, q: nat)
    ensures found ==> UpAt(r, p, q) && forall k, j :: 0 <= k < p ==> !UpAt(r, k, j)
    ensures !found ==> forall k, j :: !UpAt(r, k, j)
  {
    p, q := 0, 0;
    while p < |r|
      invariant forall k, j :: 0 <= k < p ==> !UpAt(r, k, j)
    {
      if r[p] == '/' {
        found, q := MatchName(r, p + 1);
        if found {
          return;
        }
      }
      p := p + 1;
    }
    found := false;
  }

  method RemoveDots(id: string) returns (r: string)
    ensures NoDot(Split(r)) && Resolve(Split(r)) == Resolve(Split(id))
  {
    r := id;
    var found, p := MatchDot(r);
    while found
      invariant Resolve(Split(r)) == Resolve(Split(id))
      invariant found ==> DotAt(r, p)
      invariant !found ==> forall k :: !DotAt(r, k)
      decreases |r|
    {
      DotSegments(r, p);
      DotIdle();
      ResolveDrops(Split(r[..p]), ["."], Split(r[p + 3..]));
      r := r[..p] + "/" + r[p + 3..];
      found, p := MatchDot(r);
    }
    InnerNoDot(r);
    if |r| >= 2 && r[..2] == "./" {
      LeadingDot(r);
      r := r[2..];
    } else {
      DotLeads(r);
    }
  }

  lemma InnerNoDot(r: string)
    requires forall k :: !DotAt(r, k)
    ensures forall i :: 0 < i < |Split(r)| - 1 ==> Split(r)[i] != "."
  {
    forall i | 0 < i < |Split(r)| - 1 ensures Split(r)[i] != "." {
      if Split(r)[i] == "." {
        DotFound(r, i);
      }
    }
  }

  lemma DotLeads(r: string)
    ensures |Split(r)| > 1 && Split(r)[0] == "." ==> |r| >= 2 && r[..2] == "./"
  {
    if |Split(r)| > 1 {
      JoinAt(r, 1);
    }
  }

  lemma LeadingDot(r: string)
    requires |r| >= 2 && r[..2] == "./"
    requires forall i :: 0 < i < |Split(r)| - 1 ==> Split(r)[i] != "."
    ensures NoDot(Split(r[2..])) && Resolve(Split(r[2..])) == Resolve(Split(r))
  {
    assert r == "." + "/" + r[2..];
    SplitAt(".", r[2..]);
    SplitSegment(".");
    DotIdle();
    var rest := Split(r[2..]);
    ResolveDropsHead(["."], rest);
    forall i | 0 <= i < |rest| - 1 ensures rest[i] != "." {
      assert rest[i] == Split(r)[i + 1];
    }
  }

  method RemoveUps(id: string) returns (r: string)
    requires NoDot(Split(id))
    ensures NoDot(Split(r)) && Resolve(Split(r)) == Resolve(Split(id))
    ensures forall i :: 0 < i < |Split(r)| - 2 ==> !(IsName(Split(r)[i]) && Split(r)[i + 1] == "..")
  {
    r := id;
    var found, p, q := MatchUp(r);
    while found
      invariant NoDot(Split(r)) && Resolve(Split(r)) == Resolve(Split(id))
      invariant found ==> UpAt(r, p, q)
      invariant !found ==> forall k, j :: !UpAt(r, k, j)
      decreases |r|
    {
      UpRemoved(r, p, q);
      r := r[..p] + "/" + r[q + 4..];
      found, p, q := MatchUp(r);
    }
    forall i | 0 < i < |Split(r)| - 2 ensures !(IsName(Split(r)[i]) && Split(r)[i + 1] == "..") {
      if IsName(Split(r)[i]) && Split(r)[i + 1] == ".." {
        UpFound(r, i);
      }
    }
  }

  lemma UpRemoved(r: string, p: nat, q: nat)
    requires UpAt(r, p, q) && NoDot(Split(r))
    ensures var r' := r[..p] + "/" + r[q + 4..]; NoDot(Split(r')) && Resolve(Split(r')) == Resolve(Split(r))
  {
    UpSegments(r, p, q);
    var a, b := Split(r[..p]), Split(r[q + 4..]);
    assert Split(r)[|a|] == r[p + 1..q];
    PairIdle(r[p + 1..q]);
    ResolveDrops(a, [r[p + 1..q], ".."], b);
    NoDotWithout(a, [r[p + 1..q], ".."], b);
  }

  lemma NoDotWithout(a: seq<string>, mid: seq<string>, b: seq<string>)
    requires |b| > 0 && NoDot(a + mid + b)
    ensures NoDot(a + b)
  {
    forall i | 0 <= i < |a + b| - 1 ensures (a + b)[i] != "." {
      assert (a + b)[i] == if i < |a| then (a + mid + b)[i] else (a + mid + b)[i + |mid|];
    }
  }

  /** The replacements end and give the one-pass resolution. */
  method NormalizeModuleId(moduleId: string) returns (r: string)
    ensures r == Join(Resolve(Split(moduleId)))
    ensures Split(r) == Resolve(Split(moduleId))
  {
    r := RemoveDots(moduleId);
    r := RemoveUps(r);
    var found, q := MatchName(r, 0);
    if found {
      HeadRemoved(r, q);
      r := r[q + 4..];
    } else {
      HeadKept(r);
    }
    ResolvedStays(Split(r));
    JoinSplit(r);
  }

  lemma HeadRemoved(r: string, q: nat)
    requires NameUp(r, 0, q) && NoDot(Split(r))
    requires forall i :: 0 < i < |Split(r)| - 2 ==> !(IsName(Split(r)[i]) && Split(r)[i + 1] == "..")
    ensures Resolved(Split(r[q + 4..])) && Resolve(Split(r[q + 4..])) == Resolve(Split(r))
  {
    NameSegments(r, 0, q);
    assert r[0..] == r;
    var name, b := r[0..q], Split(r[q + 4..]);
    assert Split(r)[0] == name;
    PairIdle(name);
    ResolveDropsHead([name, ".."], b);
    ResolvedTail(Split(r), b);
  }

  lemma ResolvedTail(s: seq<string>, b: seq<string>)
    requires |b| > 0 && |s| == |b| + 2 && s[2..] == b && NoDot(s)
    requires forall i :: 0 < i < |s| - 2 ==> !(IsName(s[i]) && s[i + 1] == "..")
    ensures Resolved(b)
  {
  }

  lemma HeadKept(r: string)
    requires (forall k :: !NameUp(r, 0, k)) && NoDot(Split(r))
    requires forall i :: 0 < i < |Split(r)| - 2 ==> !(IsName(Split(r)[i]) && Split(r)[i + 1] == "..")
    ensures Resolved(Split(r))
  {
    var s := Split(r);
    if |s| > 2 && IsName(s[0]) && s[1] == ".." {
      JoinSplit(r);
      assert r[0..] == r;
      NameFound(r, 0, s);
    }
  }
}
