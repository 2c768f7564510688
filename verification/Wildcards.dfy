/** The wildcard matcher of `f_findfirst` (`pattern_match`) over decoded, case-folded characters. */
module Wildcards {
  import opened Bytes

  /** `FIND_RECURS`. */
  const MAX_RUNS := 4

  datatype Pat = One | Many | Lit(c: u32)

  /** What a pattern means: `?` is any one character, `*` any number of them. */
  predicate Matches(pat: seq<Pat>, nam: seq<u32>)
    decreases |pat|, |nam|
  {
    if pat == [] then nam == []
    else match pat[0]
         case One => nam != [] && Matches(pat[1..], nam[1..])
         case Many => Matches(pat[1..], nam) || (nam != [] && Matches(pat, nam[1..]))
         case Lit(c) => nam != [] && nam[0] == c && Matches(pat[1..], nam[1..])
  }

  /** Length of the leading wildcard run. */
  function RunLength(pat: seq<Pat>): (k: nat)
    ensures k <= |pat|
    ensures forall i :: 0 <= i < k ==> !pat[i].Lit?
    ensures k < |pat| ==> pat[k].Lit?
  {
    if pat == [] || pat[0].Lit? then 0 else 1 + RunLength(pat[1..])
  }

  /** How many wildcard runs a pattern has. */
  function Runs(pat: seq<Pat>): nat
    decreases |pat|
  {
    if pat == [] then 0
    else if pat[0].Lit? then Runs(pat[1..])
    else 1 + Runs(pat[RunLength(pat)..])
  }

  /** The number a run is packed into: `?`s counted from bit 0, bit 8 set by a `*`. */
  function Packed(run: seq<Pat>): nat {
    if run == [] then 0
    else
      var sk := Packed(run[..|run| - 1]);
      if run[|run| - 1].One? then sk + 1
      else if sk / 0x100 % 2 == 1 then sk else sk + 0x100
  }

  /** What a packed run is taken for. */
  function Unpacked(sk: nat): seq<Pat> {
    seq(sk % 0x100, _ => One) + if sk >= 0x100 then [Many] else []
  }

  /** The pattern as the matcher understands it: every run in packed form. */
  function Effective(pat: seq<Pat>): seq<Pat>
    decreases |pat|
  {
    if pat == [] then []
    else if pat[0].Lit? then [pat[0]] + Effective(pat[1..])
    else Unpacked(Packed(pat[..RunLength(pat)])) + Effective(pat[RunLength(pat)..])
  }

  /** Leading literals. */
  function Literals(pat: seq<Pat>): nat {
    if pat == [] || !pat[0].Lit? then 0 else 1 + Literals(pat[1..])
  }

  lemma LitStep(pat: seq<Pat>, nam: seq<u32>)
    requires pat != [] && pat[0].Lit?
    ensures Matches(Effective(pat), nam) <==> nam != [] && nam[0] == pat[0].c && Matches(Effective(pat[1..]), nam[1..])
  {
    assert Effective(pat)[1..] == Effective(pat[1..]);
  }

  lemma RunStep(pat: seq<Pat>)
    requires pat != [] && !pat[0].Lit?
    ensures RunLength(pat) > 0
    ensures Effective(pat) == Unpacked(Packed(pat[..RunLength(pat)])) + Effective(pat[RunLength(pat)..])
    ensures Runs(pat) == 1 + Runs(pat[RunLength(pat)..])
  {
  }

  /** A name shorter than the leading literals cannot match. */
  lemma {:induction false} TooShort(pat: seq<Pat>, nam: seq<u32>)
    requires |nam| < Literals(pat)
    ensures !Matches(Effective(pat), nam)
    decreases |pat|
  {
    LitStep(pat, nam);
    if nam != [] { TooShort(pat[1..], nam[1..]); }
  }

  /** Skipping one character for a `?`. */
  lemma OneStep(n: nat, tail: seq<Pat>, nam: seq<u32>)
    requires n > 0
    ensures Matches(seq(n, _ => One) + tail, nam) <==> nam != [] && Matches(seq(n - 1, _ => One) + tail, nam[1..])
  {
    assert (seq(n, _ => One) + tail)[1..] == seq(n - 1, _ => One) + tail;
  }

  /** A `*` may stand for nothing or take one character. */
  lemma ManyStep(tail: seq<Pat>, nam: seq<u32>)
    ensures Matches([Many] + tail, nam) <==> Matches(tail, nam) || (nam != [] && Matches([Many] + tail, nam[1..]))
  {
    assert ([Many] + tail)[1..] == tail;
  }

  /** No later start can match once the name is shorter than the literals ahead. */
  lemma {:induction false} NoLaterStart(pat: seq<Pat>, nam: seq<u32>)
    requires |nam| < Literals(pat)
    ensures !Matches([Many] + Effective(pat), nam)
    decreases |nam|
  {
    ManyStep(Effective(pat), nam);
    TooShort(pat, nam);
    if nam != [] { NoLaterStart(pat, nam[1..]); }
  }

  /** The outcome of trying the pattern at one place: matched, mismatched (`atEnd` if the name was used
      up), or too many wildcard runs. */
  datatype Verdict = Matched | Mismatched(atEnd: bool) | TooMany

  /** The inner loop of `pattern_match`. */
  method TryHere(pat: seq<Pat>, nam: seq<u32>, recur: nat) returns (v: Verdict)
    ensures v == Matched <==> Runs(pat) <= recur && Matches(Effective(pat), nam)
    ensures v == TooMany ==> Runs(pat) > recur
    ensures v == Mismatched(true) ==> |nam| <= Literals(pat)
    ensures v == Mismatched(false) ==> nam != []
    decreases recur, 0
  {
    hide Matches, Effective, Packed, Unpacked;
    var pptr, nptr := pat, nam;
    ghost var k := 0;
    while true
      invariant 0 <= k <= |pat| && k <= |nam| && pptr == pat[k..] && nptr == nam[k..]
      invariant Matches(Effective(pat), nam) <==> Matches(Effective(pptr), nptr)
      invariant Runs(pat) == Runs(pptr)
      invariant Literals(pat) == k + Literals(pptr)
      decreases |pptr|
    {
      if pptr != [] && !pptr[0].Lit? {
        if recur == 0 { return TooMany; }
        RunStep(pptr);
        var sk, rest := PackRun(pptr);
        var r := PatternMatch(rest, nptr, sk, recur - 1);
        return if r then Matched else Mismatched(nptr == []);
      }
      if pptr == [] {
        EmptyMatches(nptr);
        return if nptr == [] then Matched else Mismatched(false);
      }
      LitStep(pptr, nptr);
      if nptr == [] { return Mismatched(true); }
      if pptr[0].c != nptr[0] { return Mismatched(false); }
      pptr, nptr := pptr[1..], nptr[1..];
      k := k + 1;
    }
  }

  lemma EmptyMatches(nam: seq<u32>)
    ensures Matches(Effective([]), nam) <==> nam == []
  {
  }

  /** Packs the leading wildcard run into a number. */
  method PackRun(pat: seq<Pat>) returns (sk: nat, rest: seq<Pat>)
    requires pat != [] && !pat[0].Lit?
    ensures sk == Packed(pat[..RunLength(pat)]) && rest == pat[RunLength(pat)..]
  {
    sk := 0;
    var i := 0;
    while i < |pat| && !pat[i].Lit?
      invariant 0 <= i <= RunLength(pat)
      invariant sk == Packed(pat[..i])
    {
      assert pat[..i + 1][..i] == pat[..i];
      if pat[i].One? { sk := sk + 1; }
      else if sk / 0x100 % 2 == 0 { sk := sk + 0x100; }
      i := i + 1;
    }
    rest := pat[i..];
  }

  /** `pattern_match`: exact for every pattern as the matcher understands it, as long as the runs do not
      exceed the recursion limit. */
  method PatternMatch(pat: seq<Pat>, nam: seq<u32>, skip: nat, recur: nat) returns (r: bool)
    ensures r <==> Runs(pat) <= recur && Matches(Unpacked(skip) + Effective(pat), nam)
    decreases recur, 1
  {
    hide Matches, Effective, Packed;
    var n := nam;
    var left := skip % 0x100;
    ghost var star := if skip >= 0x100 then [Many] else [];
    ghost var tail := star + Effective(pat);
    assert Unpacked(skip) + Effective(pat) == seq(left, _ => One) + tail;
    while left != 0
      invariant 0 <= left <= skip % 0x100
      invariant Matches(Unpacked(skip) + Effective(pat), nam) <==> Matches(seq(left, _ => One) + tail, n)
    {
      OneStep(left, tail, n);
      if n == [] { return false; }
      n := n[1..];
      left := left - 1;
    }
    assert seq(0, _ => One) + tail == tail;
    if pat == [] && skip >= 0x100 {
      AnyTail(n);
      return true;
    }
    if skip < 0x100 {
      assert tail == Effective(pat);
      var v := TryHere(pat, n, recur);
      return v == Matched;
    }
    while true
      invariant Runs(pat) <= recur ==>
        (Matches(Unpacked(skip) + Effective(pat), nam) <==> Matches([Many] + Effective(pat), n))
      decreases |n|
    {
      var v := TryHere(pat, n, recur);
      ManyStep(Effective(pat), n);
      if v == Matched { return true; }
      if v == TooMany { return false; }
      if v.atEnd {
        if n != [] { NoLaterStart(pat, n[1..]); }
        return false;
      }
      n := n[1..];
    }
  }

  lemma {:induction false} AnyTail(nam: seq<u32>)
    ensures Runs([]) == 0 && Matches([Many] + Effective([]), nam)
    decreases |nam|
  {
    ManyStep(Effective([]), nam);
    EmptyMatches(nam);
    if nam != [] { AnyTail(nam[1..]); }
  }

  function Questions(run: seq<Pat>): nat {
    if run == [] then 0 else (if run[0].One? then 1 else 0) + Questions(run[1..])
  }

  predicate HasStar(run: seq<Pat>) {
    Many in run
  }

  /** The rest of a pattern matches after at least `q` characters, or exactly `q` without a star. */
  ghost predicate After(tail: seq<Pat>, nam: seq<u32>, q: nat, star: bool) {
    if star then exists j :: q <= j <= |nam| && Matches(tail, nam[j..])
    else q <= |nam| && Matches(tail, nam[q..])
  }

  /** What a wildcard run means: its `?`s count characters, one `*` or several lift the upper bound. */
  lemma {:induction false} RunMeans(run: seq<Pat>, tail: seq<Pat>, nam: seq<u32>)
    requires forall i :: 0 <= i < |run| ==> !run[i].Lit?
    ensures Matches(run + tail, nam) <==> After(tail, nam, Questions(run), HasStar(run))
    decreases |run|, |nam|
  {
    if run == [] {
      assert run + tail == tail && nam[0..] == nam;
    } else {
      var rest, q := run[1..], Questions(run);
      assert (run + tail)[1..] == rest + tail && run == [run[0]] + rest;
      if run[0] == One {
        if nam != [] {
          RunMeans(rest, tail, nam[1..]);
          Shifted(tail, nam, q, HasStar(rest));
        }
      } else {
        RunMeans(rest, tail, nam);
        if nam != [] {
          RunMeans(run, tail, nam[1..]);
        }
        Loosened(tail, nam, q, HasStar(rest));
      }
    }
  }

  lemma Shifted(tail: seq<Pat>, nam: seq<u32>, q: nat, star: bool)
    requires nam != [] && q > 0
    ensures After(tail, nam, q, star) <==> After(tail, nam[1..], q - 1, star)
  {
    hide Matches;
    assert forall j :: 1 <= j <= |nam| ==> nam[j..] == nam[1..][j - 1..];
    if star {
      if After(tail, nam, q, star) {
        var j :| q <= j <= |nam| && Matches(tail, nam[j..]);
        assert Matches(tail, nam[1..][j - 1..]);
      }
      if After(tail, nam[1..], q - 1, star) {
        var j :| q - 1 <= j <= |nam[1..]| && Matches(tail, nam[1..][j..]);
        assert Matches(tail, nam[j + 1..]);
      }
    }
  }

  lemma LaterSuffix(nam: seq<u32>, j: nat)
    requires 1 <= j <= |nam|
    ensures nam[j..] == nam[1..][j - 1..]
  {
  }

  lemma Loosened(tail: seq<Pat>, nam: seq<u32>, q: nat, star: bool)
    ensures After(tail, nam, q, true) <==> After(tail, nam, q, star) || (nam != [] && After(tail, nam[1..], q, true))
  {
    hide Matches;
    if nam != [] && After(tail, nam[1..], q, true) {
      var j :| q <= j <= |nam[1..]| && Matches(tail, nam[1..][j..]);
      LaterSuffix(nam, j + 1);
      assert Matches(tail, nam[j + 1..]);
    }
    if After(tail, nam, q, true) && !After(tail, nam, q, star) {
      var j :| q <= j <= |nam| && Matches(tail, nam[j..]);
      assert j > q;
      LaterSuffix(nam, j);
      assert Matches(tail, nam[1..][j - 1..]);
    }
  }

  lemma {:induction false} QuestionsLast(run: seq<Pat>, x: Pat)
    ensures Questions(run + [x]) == Questions(run) + (if x.One? then 1 else 0)
    decreases |run|
  {
    if run != [] {
      QuestionsLast(run[1..], x);
      assert (run + [x])[1..] == run[1..] + [x];
    } else {
      assert run + [x] == [x];
    }
  }

  /** The low byte of a packed run counts the `?`s modulo 256; anything above it stands for a star. */
  predicate PackedFor(sk: nat, q: nat, star: bool) {
    sk % 0x100 == q % 0x100 && (sk >= 0x100 <==> star || q >= 0x100)
  }

  lemma PackStep(sk: nat, q: nat, star: bool)
    requires PackedFor(sk, q, star)
    ensures PackedFor(sk + 1, q + 1, star)
    ensures PackedFor(if sk / 0x100 % 2 == 1 then sk else sk + 0x100, q, true)
  {
    assert sk < 0x100 ==> sk == q;
    assert (sk + 1) % 0x100 == (sk % 0x100 + 1) % 0x100 && (q + 1) % 0x100 == (q % 0x100 + 1) % 0x100;
    assert (sk + 0x100) % 0x100 == sk % 0x100;
    assert sk < 0x100 ==> sk / 0x100 == 0;
  }

  lemma {:induction false} PackedMeans(run: seq<Pat>)
    requires forall i :: 0 <= i < |run| ==> !run[i].Lit?
    ensures PackedFor(Packed(run), Questions(run), HasStar(run))
    decreases |run|
  {
    hide PackedFor;
    if run == [] {
      PackedNothing();
    } else {
      var k := |run| - 1;
      var front := run[..k];
      PackedMeans(front);
      QuestionsLast(front, run[k]);
      assert run == front + [run[k]];
      assert HasStar(run) == (HasStar(front) || run[k] == Many);
      PackStep(Packed(front), Questions(front), HasStar(front));
    }
  }

  lemma PackedNothing()
    ensures PackedFor(Packed([]), Questions([]), HasStar([]))
  {
  }

  lemma {:induction false} QuestionsOfOnes(n: nat)
    ensures Questions(seq(n, _ => One)) == n && !HasStar(seq(n, _ => One))
    decreases n
  {
    if n > 0 {
      QuestionsOfOnes(n - 1);
      assert seq(n, _ => One)[1..] == seq(n - 1, _ => One);
    }
  }

  lemma UnpackedMeans(sk: nat)
    ensures Questions(Unpacked(sk)) == sk % 0x100 && (HasStar(Unpacked(sk)) <==> sk >= 0x100)
  {
    QuestionsOfOnes(sk % 0x100);
    if sk >= 0x100 {
      QuestionsLast(seq(sk % 0x100, _ => One), Many);
      assert Unpacked(sk)[sk % 0x100] == Many;
    } else {
      assert Unpacked(sk) == seq(sk % 0x100, _ => One);
    }
  }

  /** Every run has fewer than 256 `?`s. */
  predicate SmallRuns(pat: seq<Pat>)
    decreases |pat|
  {
    if pat == [] then true
    else if pat[0].Lit? then SmallRuns(pat[1..])
    else Questions(pat[..RunLength(pat)]) < 0x100 && SmallRuns(pat[RunLength(pat)..])
  }

  /** One run and what follows it, as meant and as understood. */
  lemma RunAgrees(run: seq<Pat>, rest: seq<Pat>, rest': seq<Pat>, nam: seq<u32>)
    requires (forall i :: 0 <= i < |run| ==> !run[i].Lit?) && Questions(run) < 0x100
    requires forall n: seq<u32> :: Matches(rest', n) <==> Matches(rest, n)
    ensures Matches(Unpacked(Packed(run)) + rest', nam) <==> Matches(run + rest, nam)
  {
    hide Matches, Packed, Questions, HasStar, Unpacked;
    PackedMeans(run);
    UnpackedMeans(Packed(run));
    UnpackedWild(Packed(run));
    RunMeans(run, rest, nam);
    RunMeans(Unpacked(Packed(run)), rest', nam);
  }

  lemma UnpackedWild(sk: nat)
    ensures forall i :: 0 <= i < |Unpacked(sk)| ==> !Unpacked(sk)[i].Lit?
  {
  }

  /** Such a pattern is understood as it is meant. */
  lemma {:induction false} EffectiveMeans(pat: seq<Pat>, nam: seq<u32>)
    requires SmallRuns(pat)
    ensures Matches(Effective(pat), nam) <==> Matches(pat, nam)
    decreases |pat|
  {
    if pat != [] {
      if pat[0].Lit? {
        LitStep(pat, nam);
        if nam != [] { EffectiveMeans(pat[1..], nam[1..]); }
      } else {
        hide Matches, Effective;
        var k := RunLength(pat);
        var run, rest := pat[..k], pat[k..];
        RunStep(pat);
        assert pat == run + rest;
        forall n: seq<u32>
          ensures Matches(Effective(rest), n) <==> Matches(rest, n)
        {
          EffectiveMeans(rest, n);
        }
        RunAgrees(run, rest, Effective(rest), nam);
      }
    }
  }

  /** Characters a match needs at least. */
  function MinLength(pat: seq<Pat>): nat {
    if pat == [] then 0 else (if pat[0].Many? then 0 else 1) + MinLength(pat[1..])
  }

  /** A shortest name that matches. */
  function Shortest(pat: seq<Pat>): seq<u32> {
    if pat == [] then []
    else (match pat[0] case One => [1] case Many => [] case Lit(c) => [c]) + Shortest(pat[1..])
  }

  lemma {:induction false} ShortestMatches(pat: seq<Pat>)
    ensures Matches(pat, Shortest(pat)) && |Shortest(pat)| == MinLength(pat)
    decreases |pat|
  {
    if pat != [] {
      ShortestMatches(pat[1..]);
      if pat[0].Many? {
        assert Shortest(pat) == Shortest(pat[1..]);
      } else {
        assert Shortest(pat)[1..] == Shortest(pat[1..]);
      }
    }
  }

  lemma {:induction false} MatchIsLong(pat: seq<Pat>, nam: seq<u32>)
    requires Matches(pat, nam)
    ensures |nam| >= MinLength(pat)
    decreases |pat|, |nam|
  {
    if pat != [] {
      if pat[0].Many? && !Matches(pat[1..], nam) {
        MatchIsLong(pat, nam[1..]);
      } else {
        MatchIsLong(pat[1..], if pat[0].Many? then nam else nam[1..]);
      }
    }
  }

  lemma {:induction false} MinLengthSum(a: seq<Pat>, b: seq<Pat>)
    ensures MinLength(a + b) == MinLength(a) + MinLength(b)
    decreases |a|
  {
    if a == [] {
      assert a + b == b;
    } else {
      MinLengthSum(a[1..], b);
      assert (a + b)[1..] == a[1..] + b;
    }
  }

  lemma {:induction false} MinLengthOfRun(run: seq<Pat>)
    requires forall i :: 0 <= i < |run| ==> !run[i].Lit?
    ensures MinLength(run) == Questions(run)
    decreases |run|
  {
    if run != [] { MinLengthOfRun(run[1..]); }
  }

  lemma RunShrinks(run: seq<Pat>, rest: seq<Pat>, rest': seq<Pat>)
    requires forall i :: 0 <= i < |run| ==> !run[i].Lit?
    ensures MinLength(run + rest) == Questions(run) + MinLength(rest)
    ensures MinLength(Unpacked(Packed(run)) + rest') == Questions(run) % 0x100 + MinLength(rest')
  {
    hide Packed, Unpacked, HasStar, Questions, MinLength;
    MinLengthSum(run, rest);
    MinLengthOfRun(run);
    PackedMeans(run);
    UnpackedMeans(Packed(run));
    UnpackedWild(Packed(run));
    MinLengthOfRun(Unpacked(Packed(run)));
    MinLengthSum(Unpacked(Packed(run)), rest');
  }

  lemma LitShrinks(pat: seq<Pat>)
    requires pat != [] && pat[0].Lit?
    ensures MinLength(pat) == 1 + MinLength(pat[1..]) && MinLength(Effective(pat)) == 1 + MinLength(Effective(pat[1..]))
  {
    assert Effective(pat)[1..] == Effective(pat[1..]);
  }

  lemma NothingShrinks()
    ensures MinLength([]) == 0 && MinLength(Effective([])) == 0
  {
  }

  /** Packing loses characters exactly where a run has 256 `?`s or more. */
  lemma {:induction false} EffectiveLength(pat: seq<Pat>)
    ensures MinLength(Effective(pat)) <= MinLength(pat)
    ensures !SmallRuns(pat) ==> MinLength(Effective(pat)) < MinLength(pat)
    decreases |pat|
  {
    hide Packed, Unpacked, HasStar, Questions, Effective, MinLength;
    if pat == [] {
      NothingShrinks();
    } else {
      if pat[0].Lit? {
        EffectiveLength(pat[1..]);
        LitShrinks(pat);
      } else {
        var run, rest := pat[..RunLength(pat)], pat[RunLength(pat)..];
        RunStep(pat);
        EffectiveLength(rest);
        assert pat == run + rest;
        RunShrinks(run, rest, Effective(rest));
      }
    }
  }

  ghost predicate UnderstoodFor(pat: seq<Pat>, nam: seq<u32>) {
    Matches(Effective(pat), nam) == Matches(pat, nam)
  }

  /** A run of 256 `?`s or more makes some name match that should not. */
  lemma Misunderstood(pat: seq<Pat>)
    requires !SmallRuns(pat)
    ensures !UnderstoodFor(pat, Shortest(Effective(pat)))
  {
    hide Matches, Effective;
    var nam := Shortest(Effective(pat));
    EffectiveLength(pat);
    ShortestMatches(Effective(pat));
    if Matches(pat, nam) { MatchIsLong(pat, nam); }
  }

  /** The matcher takes a pattern as it is meant, for all names, exactly when no run has 256 `?`s or more. */
  lemma UnderstoodIff(pat: seq<Pat>)
    ensures SmallRuns(pat) <==> forall nam: seq<u32> :: UnderstoodFor(pat, nam)
  {
    if SmallRuns(pat) {
      forall nam: seq<u32> ensures UnderstoodFor(pat, nam) { EffectiveMeans(pat, nam); }
    } else {
      Misunderstood(pat);
    }
  }

  /** `pattern_match` as `f_findfirst` calls it, on a pattern without such runs. */
  method FindMatches(pat: seq<Pat>, nam: seq<u32>) returns (r: bool)
    requires SmallRuns(pat)
    ensures r ==> Matches(pat, nam)
    ensures Runs(pat) <= MAX_RUNS ==> (r <==> Matches(pat, nam))
    ensures Runs(pat) > MAX_RUNS ==> !r
  {
    EffectiveMeans(pat, nam);
    hide Matches, Effective;
    r := PatternMatch(pat, nam, 0, MAX_RUNS);
    assert Unpacked(0) + Effective(pat) == Effective(pat);
  }
}
