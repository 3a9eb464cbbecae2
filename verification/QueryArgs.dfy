/**
 * The raw query-string editor of reqwest/fasthttp_args.go. Bytes are modelled as characters: the code only
 * compares them, with `&` and with `=`.
 */
module QueryPairs {
  import opened Basics

  /** One argument: a segment without `=` is a key with no value. */
  datatype Pair = Pair(key: string, value: string, noValue: bool)

  /** The index of the first `c`, or the length. */
  function IndexOf(b: string, c: char): (i: nat)
    ensures i <= |b| && (i < |b| ==> b[i] == c)
    ensures forall k :: 0 <= k < i ==> b[k] != c
  {
    if b == "" || b[0] == c then 0 else 1 + IndexOf(b[1..], c)
  }

  function Segment(b: string): string { b[..IndexOf(b, '&')] }

  /** What is left after the first segment and its `&`. */
  function Rest(b: string): (r: string)
    ensures b != "" ==> |r| < |b|
  {
    var e := IndexOf(b, '&');
    if e < |b| then b[e + 1..] else ""
  }

  function PairOf(segment: string): Pair {
    var e := IndexOf(segment, '=');
    if e < |segment| then Pair(segment[..e], segment[e + 1..], false) else Pair(segment, "", true)
  }

  /** The pairs of a query string, in order. */
  function Scan(b: string): seq<Pair>
    decreases |b|
  {
    if b == "" then [] else [PairOf(Segment(b))] + Scan(Rest(b))
  }

  function PrintPair(p: Pair): string {
    if p.noValue then p.key else p.key + "=" + p.value
  }

  function Print(ps: seq<Pair>): string {
    if ps == [] then ""
    else if |ps| == 1 then PrintPair(ps[0])
    else PrintPair(ps[0]) + "&" + Print(ps[1..])
  }

  predicate Names(p: Pair, key: string) { p.key == key && !p.noValue }

  /** The first pair named `key` that has an `=` gets the value; without one, the pair is appended. */
  function Edit(ps: seq<Pair>, key: string, value: string): seq<Pair> {
    if ps == [] then [Pair(key, value, false)]
    else if Names(ps[0], key) then [Pair(key, value, false)] + ps[1..]
    else [ps[0]] + Edit(ps[1..], key, value)
  }

  /** The value of the first pair named `key` that has an `=`. */
  function Lookup(ps: seq<Pair>, key: string): Option<string> {
    if ps == [] then None
    else if Names(ps[0], key) then Some(ps[0].value)
    else Lookup(ps[1..], key)
  }

  function TrimLeft(qs: string): string {
    if qs != "" && qs[0] == '&' then TrimLeft(qs[1..]) else qs
  }

  function TrimRight(qs: string): string {
    if qs != "" && qs[|qs| - 1] == '&' then TrimRight(qs[..|qs| - 1]) else qs
  }

  /** `bytes.Trim(qs, "&")`. */
  function Trim(qs: string): string { TrimRight(TrimLeft(qs)) }

  /** Setting a key edits the pair list of the trimmed string. */
  function SetKey(qs: string, key: string, value: string): string {
    Print(Edit(Scan(Trim(qs)), key, value))
  }

  predicate IsKey(key: string) { '&' !in key && '=' !in key }

  predicate IsValue(value: string) { '&' !in value }

  // ---------------------------------------------------------------- finding the first occurrence

  lemma {:induction false} IndexOfIs(b: string, c: char, i: nat)
    requires i <= |b| && (i < |b| ==> b[i] == c)
    requires forall k :: 0 <= k < i ==> b[k] != c
    ensures IndexOf(b, c) == i
  {}

  /** The first occurrence in a text that begins with `t`, where `t` is free of `c` and `c` follows, or the end. */
  lemma FirstAfter(t: string, c: char, u: string)
    requires c !in t && (u == "" || u[0] == c)
    ensures IndexOf(t + u, c) == |t|
  {
    assert forall k :: 0 <= k < |t| ==> (t + u)[k] == t[k];
    IndexOfIs(t + u, c, |t|);
  }

  lemma SegmentIs(t: string, u: string)
    requires '&' !in t
    ensures Segment(t) == t && Rest(t) == ""
    ensures Segment(t + "&" + u) == t && Rest(t + "&" + u) == u
  {
    IndexOfIs(t, '&', |t|);
    assert t + "&" + u == t + ("&" + u);
    FirstAfter(t, '&', "&" + u);
  }

  /** A string is its first segment, alone or followed by `&` and the rest. */
  lemma SegmentSplits(b: string)
    ensures '&' !in Segment(b)
    ensures if '&' in b then b == Segment(b) + "&" + Rest(b) else b == Segment(b) && Rest(b) == ""
  {
    var e := IndexOf(b, '&');
    if '&' in b {
      assert e < |b|;
      assert b == b[..e] + [b[e]] + b[e + 1..];
    }
  }

  lemma PairPrints(segment: string)
    ensures PrintPair(PairOf(segment)) == segment
    ensures '=' !in PairOf(segment).key
    ensures PairOf(segment).noValue ==> PairOf(segment).value == ""
  {}

  lemma PairReads(p: Pair)
    requires '=' !in p.key && (p.noValue ==> p.value == "")
    ensures PairOf(PrintPair(p)) == p
  {
    if p.noValue {
      IndexOfIs(p.key, '=', |p.key|);
    } else {
      assert PrintPair(p) == p.key + ("=" + p.value);
      FirstAfter(p.key, '=', "=" + p.value);
    }
  }

  // ---------------------------------------------------------------- scanner and printer undo each other

  predicate EndsInAmp(b: string) { b != "" && b[|b| - 1] == '&' }

  function DropTrailingAmp(b: string): string { if EndsInAmp(b) then b[..|b| - 1] else b }

  lemma DropBehind(segment: string, rest: string)
    ensures DropTrailingAmp(segment + "&" + rest) ==
            if rest == "" then segment else segment + "&" + DropTrailingAmp(rest)
  {
    var b := segment + "&" + rest;
    if rest == "" {
      assert b[..|b| - 1] == segment;
    } else {
      assert b[|b| - 1] == rest[|rest| - 1];
      assert b[..|b| - 1] == segment + "&" + rest[..|rest| - 1];
    }
  }

  /** Printing the scanned pairs gives back the string, minus one trailing `&`. */
  lemma {:induction false} PrintOfScan(b: string)
    ensures Print(Scan(b)) == DropTrailingAmp(b)
    decreases |b|
  {
    hide Segment, Rest, PairOf, PrintPair;
    if b != "" {
      var segment, rest := Segment(b), Rest(b);
      SegmentSplits(b);
      PairPrints(segment);
      PrintOfScan(rest);
      DropBehind(segment, rest);
      assert Scan(b)[1..] == Scan(rest);
    }
  }

  predicate WellFormedPair(p: Pair) {
    '&' !in p.key && '=' !in p.key && '&' !in p.value && (p.noValue ==> p.value == "")
  }

  /** Well-formed pairs, of which the last is not an empty segment. */
  ghost predicate WellFormed(ps: seq<Pair>) {
    && (forall k :: 0 <= k < |ps| ==> WellFormedPair(ps[k]))
    && (ps != [] ==> PrintPair(ps[|ps| - 1]) != "")
  }

  lemma PrintedPairIsPlain(p: Pair)
    requires WellFormedPair(p)
    ensures '&' !in PrintPair(p)
  {}

  /** Scanning a printed well-formed pair list gives the list back. */
  lemma {:induction false} ScanOfPrint(ps: seq<Pair>)
    requires WellFormed(ps)
    ensures Scan(Print(ps)) == ps
  {
    hide Segment, Rest, PairOf, PrintPair;
    if ps != [] {
      var p, tail := ps[0], ps[1..];
      PrintedPairIsPlain(p);
      PairReads(p);
      SegmentIs(PrintPair(p), Print(tail));
      if tail != [] {
        assert WellFormed(tail) by { assert tail[|tail| - 1] == ps[|ps| - 1]; }
        ScanOfPrint(tail);
      } else {
        assert Scan("") == [];
      }
      assert ps == [p] + tail;
    }
  }

  lemma SegmentIsWellFormed(b: string)
    ensures WellFormedPair(PairOf(Segment(b))) && PrintPair(PairOf(Segment(b))) == Segment(b)
  {
    PairPrints(Segment(b));
    SegmentSplits(b);
  }

  lemma RestEnds(b: string)
    requires b != "" && !EndsInAmp(b)
    ensures !EndsInAmp(Rest(b)) && (Rest(b) == "" ==> Segment(b) == b)
  {}

  lemma {:induction false} ScanIsWellFormed(b: string)
    requires !EndsInAmp(b)
    ensures WellFormed(Scan(b))
    decreases |b|
  {
    hide Segment, Rest, PairOf, PrintPair, WellFormedPair, EndsInAmp;
    if b != "" {
      SegmentIsWellFormed(b);
      RestEnds(b);
      ScanIsWellFormed(Rest(b));
    }
  }

  /** Whatever is scanned, no key has a separator and no value an `&`. */
  lemma {:induction false} ScannedPairsArePlain(b: string, k: nat)
    requires k < |Scan(b)|
    ensures WellFormedPair(Scan(b)[k])
    decreases |b|
  {
    hide Segment, Rest, PairOf, WellFormedPair;
    SegmentIsWellFormed(b);
    if k > 0 { ScannedPairsArePlain(Rest(b), k - 1); }
  }

  // ---------------------------------------------------------------- edits and lookups on pair lists

  lemma {:induction false} LookupAfterEdit(ps: seq<Pair>, key: string, value: string, other: string)
    ensures Lookup(Edit(ps, key, value), other) == if other == key then Some(value) else Lookup(ps, other)
  {
    if ps != [] && !Names(ps[0], key) {
      LookupAfterEdit(ps[1..], key, value, other);
      assert Edit(ps, key, value)[1..] == Edit(ps[1..], key, value);
    } else if ps != [] {
      assert Edit(ps, key, value)[1..] == ps[1..];
    }
  }

  lemma {:induction false} LastEditWins(ps: seq<Pair>, key: string, v1: string, v2: string)
    ensures Edit(Edit(ps, key, v1), key, v2) == Edit(ps, key, v2)
  {
    var once := Edit(ps, key, v1);
    if ps != [] && !Names(ps[0], key) {
      LastEditWins(ps[1..], key, v1, v2);
      assert once[1..] == Edit(ps[1..], key, v1);
    } else if ps != [] {
      assert once[1..] == ps[1..];
    }
  }

  /** The index of the first pair named `key` that has an `=`, or the length. */
  function FirstNamed(ps: seq<Pair>, key: string): nat {
    if ps == [] || Names(ps[0], key) then 0 else 1 + FirstNamed(ps[1..], key)
  }

  /** An edit replaces one pair in place, or appends one: every other pair keeps its place. */
  lemma {:induction false} EditTouchesOnePair(ps: seq<Pair>, key: string, value: string)
    ensures var i, p := FirstNamed(ps, key), Pair(key, value, false);
      && i <= |ps| && (forall k :: 0 <= k < i ==> !Names(ps[k], key))
      && (i < |ps| ==> Names(ps[i], key))
      && Edit(ps, key, value) == if i < |ps| then ps[i := p] else ps + [p]
  {
    hide Names;
    if ps != [] && !Names(ps[0], key) {
      var tail := ps[1..];
      EditTouchesOnePair(tail, key, value);
      assert ps == [ps[0]] + tail;
    }
  }

  lemma {:induction false} EditIsWellFormed(ps: seq<Pair>, key: string, value: string)
    requires WellFormed(ps) && IsKey(key) && IsValue(value)
    ensures WellFormed(Edit(ps, key, value))
  {
    EditTouchesOnePair(ps, key, value);
    assert PrintPair(Pair(key, value, false)) == key + "=" + value;
  }

  // ---------------------------------------------------------------- trimming

  lemma {:induction false} TrimmedRight(qs: string)
    ensures !EndsInAmp(TrimRight(qs))
    ensures TrimRight(qs) != "" ==> TrimRight(qs)[0] == qs[0]
    ensures !EndsInAmp(qs) ==> TrimRight(qs) == qs
  {
    if EndsInAmp(qs) { TrimmedRight(qs[..|qs| - 1]); }
  }

  lemma {:induction false} TrimmedLeft(qs: string)
    ensures TrimLeft(qs) == "" || TrimLeft(qs)[0] != '&'
    ensures qs == "" || qs[0] != '&' ==> TrimLeft(qs) == qs
  {
    if qs != "" && qs[0] == '&' { TrimmedLeft(qs[1..]); }
  }

  lemma Trimmed(qs: string)
    ensures !EndsInAmp(Trim(qs)) && (Trim(qs) == "" || Trim(qs)[0] != '&')
    ensures !EndsInAmp(qs) && (qs == "" || qs[0] != '&') ==> Trim(qs) == qs
  {
    TrimmedLeft(qs);
    TrimmedRight(TrimLeft(qs));
    TrimmedRight(qs);
  }

  predicate IsAmps(s: string) { forall k :: 0 <= k < |s| ==> s[k] == '&' }

  lemma {:induction false} TrimLeftCuts(qs: string) returns (left: string)
    ensures IsAmps(left) && qs == left + TrimLeft(qs)
  {
    left := "";
    if qs != "" && qs[0] == '&' {
      left := TrimLeftCuts(qs[1..]);
      left := "&" + left;
      assert qs == "&" + qs[1..];
    }
  }

  lemma {:induction false} TrimRightCuts(qs: string) returns (right: string)
    ensures IsAmps(right) && qs == TrimRight(qs) + right
  {
    right := "";
    if qs != "" && qs[|qs| - 1] == '&' {
      right := TrimRightCuts(qs[..|qs| - 1]);
      right := right + "&";
      assert qs == qs[..|qs| - 1] + "&";
    }
  }

  /** Trimming cuts a run of `&` off either end, and all of it. */
  lemma TrimCutsAmps(qs: string) returns (left: string, right: string)
    ensures IsAmps(left) && IsAmps(right) && qs == left + Trim(qs) + right
    ensures Trim(qs) != "" ==> Trim(qs)[0] != '&' && Trim(qs)[|Trim(qs)| - 1] != '&'
  {
    left := TrimLeftCuts(qs);
    right := TrimRightCuts(TrimLeft(qs));
    Trimmed(qs);
  }

  const EMPTY_SEGMENT := Pair("", "", true)

  lemma LeadingAmp(q: string)
    ensures Scan("&" + q) == [EMPTY_SEGMENT] + Scan(q)
  {
    SegmentIs("", q);
    assert "" + "&" + q == "&" + q;
  }

  /** A trailing `&` adds at most one empty segment. */
  lemma {:induction false} TrailingAmp(q: string, key: string)
    ensures Lookup(Scan(q + "&"), key) == Lookup(Scan(q), key)
    decreases |q|
  {
    hide Segment, Rest, PairOf;
    if q == "" {
      LeadingAmp("");
      assert q + "&" == "&" + "";
      assert Lookup(Scan("&" + ""), key) == Lookup([EMPTY_SEGMENT][1..], key);
    } else {
      var t, u := Segment(q), Rest(q);
      SegmentSplits(q);
      if '&' in q {
        SegmentIs(t, u + "&");
        assert q + "&" == t + "&" + (u + "&");
        TrailingAmp(u, key);
        LookupCons(PairOf(t), Scan(u + "&"), key);
        LookupCons(PairOf(t), Scan(u), key);
      } else {
        SegmentIs(t, "");
        assert q + "&" == t + "&" + "";
      }
    }
  }

  lemma LookupCons(p: Pair, ps: seq<Pair>, key: string)
    ensures Lookup([p] + ps, key) == if Names(p, key) then Some(p.value) else Lookup(ps, key)
  {
    assert ([p] + ps)[1..] == ps;
  }

  lemma {:induction false} LookupTrimmedRight(qs: string, key: string)
    ensures Lookup(Scan(TrimRight(qs)), key) == Lookup(Scan(qs), key)
  {
    hide Scan, Lookup;
    if EndsInAmp(qs) {
      var q := qs[..|qs| - 1];
      LookupTrimmedRight(q, key);
      TrailingAmp(q, key);
      assert qs == q + "&";
    }
  }

  lemma {:induction false} LookupTrimmedLeft(qs: string, key: string)
    ensures Lookup(Scan(TrimLeft(qs)), key) == Lookup(Scan(qs), key)
  {
    hide Scan, Lookup;
    if qs != "" && qs[0] == '&' {
      var q := qs[1..];
      LookupTrimmedLeft(q, key);
      LeadingAmp(q);
      LookupCons(EMPTY_SEGMENT, Scan(q), key);
      assert qs == "&" + q;
    }
  }

  lemma LookupTrimmed(qs: string, key: string)
    ensures Lookup(Scan(Trim(qs)), key) == Lookup(Scan(qs), key)
  {
    LookupTrimmedLeft(qs, key);
    LookupTrimmedRight(TrimLeft(qs), key);
  }

  // ---------------------------------------------------------------- the laws of set and get

  /** Scanning the result of a set gives the edited pair list of the trimmed string. */
  lemma SetThenScan(qs: string, key: string, value: string)
    requires IsKey(key) && IsValue(value)
    ensures Scan(SetKey(qs, key, value)) == Edit(Scan(Trim(qs)), key, value)
  {
    Trimmed(qs);
    ScanIsWellFormed(Trim(qs));
    EditIsWellFormed(Scan(Trim(qs)), key, value);
    ScanOfPrint(Edit(Scan(Trim(qs)), key, value));
  }

  /** After a set, the key reads back as set and every other key reads as before. */
  lemma GetAfterSet(qs: string, key: string, value: string, other: string)
    requires IsKey(key) && IsValue(value)
    ensures Lookup(Scan(SetKey(qs, key, value)), other) == if other == key then Some(value) else Lookup(Scan(qs), other)
  {
    SetThenScan(qs, key, value);
    LookupAfterEdit(Scan(Trim(qs)), key, value, other);
    LookupTrimmed(qs, other);
  }

  lemma {:induction false} PrintStarts(ps: seq<Pair>)
    requires ps != [] && WellFormedPair(ps[0]) && PrintPair(ps[0]) != ""
    ensures Print(ps) != "" && Print(ps)[0] != '&'
  {
    PrintedPairIsPlain(ps[0]);
  }

  /** The result of a set needs no trimming. */
  lemma SetIsTrimmed(qs: string, key: string, value: string)
    requires IsKey(key) && IsValue(value)
    ensures Trim(SetKey(qs, key, value)) == SetKey(qs, key, value)
  {
    hide Segment, Rest, PairOf, TrimLeft, TrimRight;
    var q := Trim(qs);
    var ps := Edit(Scan(q), key, value);
    Trimmed(qs);
    ScanIsWellFormed(q);
    EditIsWellFormed(Scan(q), key, value);
    assert PrintPair(Pair(key, value, false)) != "";
    if q != "" {
      SegmentIsWellFormed(q);
      SegmentSplits(q);
    }
    PrintStarts(ps);
    SetThenScan(qs, key, value);
    PrintEnds(ps);
    Trimmed(SetKey(qs, key, value));
  }

  lemma {:induction false} PrintEnds(ps: seq<Pair>)
    requires WellFormed(ps)
    ensures !EndsInAmp(Print(ps))
  {
    if |ps| == 1 {
      PrintedPairIsPlain(ps[0]);
    } else if |ps| > 1 {
      var tail := ps[1..];
      assert WellFormed(tail) && Print(tail) != "" by {
        assert tail[|tail| - 1] == ps[|ps| - 1];
        PrintIsNotEmpty(tail);
      }
      PrintEnds(tail);
    }
  }

  lemma PrintIsNotEmpty(ps: seq<Pair>)
    requires ps != [] && PrintPair(ps[|ps| - 1]) != ""
    ensures Print(ps) != ""
  {}

  /** Of two sets of one key the second alone counts; in particular, repeating a set changes nothing. */
  lemma SecondSetOverridesFirst(qs: string, key: string, v1: string, v2: string)
    requires IsKey(key) && IsValue(v1) && IsValue(v2)
    ensures SetKey(SetKey(qs, key, v1), key, v2) == SetKey(qs, key, v2)
  {
    SetIsTrimmed(qs, key, v1);
    SetThenScan(qs, key, v1);
    LastEditWins(Scan(Trim(qs)), key, v1, v2);
  }
}

/** The byte-level editor and scanner, as the code has them. */
module QueryArgs {
  import opened Basics
  import opened QueryPairs

  /** `bytes.Index`: where `t` first occurs in `s`, or -1. */
  function Index(s: string, t: string): (i: int)
    ensures -1 <= i <= |s|
  {
    if HasPrefix(s, t) then 0
    else if s == "" then -1
    else
      var i := Index(s[1..], t);
      if i < 0 then -1 else 1 + i
  }

  function FindKey(qs: string, key: string): (i: int)
    ensures -1 <= i <= |qs| + 1
  {
    if HasPrefix(qs, key + "=") then 0
    else
      var i := Index(qs, "&" + key + "=");
      if i >= 0 then i + 1 else -1
  }

  // ---------------------------------------------------------------- the search sees segments

  lemma StartsOtherwise(s: string, t: string)
    requires t != "" && (s == "" || s[0] != t[0])
    ensures !HasPrefix(s, t)
  {}

  lemma {:induction false} IndexSkips(t: string, u: string, pat: string)
    requires '&' !in t && pat != "" && pat[0] == '&'
    ensures Index(t + u, pat) == if Index(u, pat) < 0 then -1 else |t| + Index(u, pat)
  {
    if t == "" {
      assert t + u == u;
    } else {
      IndexSkips(t[1..], u, pat);
      assert (t + u)[1..] == t[1..] + u;
      assert (t + u)[0] == t[0];
      StartsOtherwise(t + u, pat);
    }
  }

  lemma {:induction false} IndexNowhere(t: string, pat: string)
    requires '&' !in t && pat != "" && pat[0] == '&'
    ensures Index(t, pat) == -1
  {
    StartsOtherwise(t, pat);
    if t != "" { IndexNowhere(t[1..], pat); }
  }

  lemma PrefixFits(t: string, u: string, key: string)
    requires (u == "" || u[0] == '&') && IsKey(key) && HasPrefix(t + u, key + "=")
    ensures |key| < |t| && t[..|key|] == key && t[|key|] == '='
  {
    var w := key + "=";
    assert '&' !in w;
    assert forall k :: 0 <= k < |w| ==> (t + u)[k] == w[k];
    assert u != "" ==> (t + u)[|t|] == '&';
    assert |w| <= |t|;
    assert t[..|w|] == (t + u)[..|w|];
    assert t[|key|] == w[|key|];
    assert t[..|key|] == w[..|key|];
  }

  /** The first segment begins with `key=` exactly when its pair is named `key` and has an `=`. */
  lemma PrefixNames(t: string, u: string, key: string)
    requires '&' !in t && (u == "" || u[0] == '&') && IsKey(key)
    ensures HasPrefix(t + u, key + "=") <==> Names(PairOf(t), key)
    ensures Names(PairOf(t), key) ==> t == key + "=" + PairOf(t).value
  {
    hide HasPrefix;
    PairPrints(t);
    if Names(PairOf(t), key) {
      assert t + u == key + "=" + (PairOf(t).value + u);
      PrefixOfSum(key + "=", PairOf(t).value + u);
    }
    if HasPrefix(t + u, key + "=") {
      PrefixFits(t, u, key);
      IndexOfIs(t, '=', |key|);
    }
  }

  lemma PrefixOfSum(w: string, u: string)
    ensures HasPrefix(w + u, w)
  {}

  lemma IndexAtAmp(u: string, key: string)
    ensures HasPrefix("&" + u, "&" + key + "=") <==> HasPrefix(u, key + "=")
  {
    var n := |key| + 1;
    if |u| >= n {
      assert ("&" + u)[..n + 1] == "&" + u[..n];
      assert ("&" + u)[..n + 1] == "&" + key + "=" ==> u[..n] == ("&" + key + "=")[1..];
      assert ("&" + key + "=")[1..] == key + "=";
      assert "&" + (key + "=") == "&" + key + "=";
    }
  }

  /** The search walks the segments: at each it asks for the name, and goes on behind the next `&`. */
  lemma FindKeyWalks(q: string, key: string)
    requires IsKey(key) && q != ""
    ensures Names(PairOf(Segment(q)), key) ==> FindKey(q, key) == 0
    ensures !Names(PairOf(Segment(q)), key) ==>
      FindKey(q, key) == if FindKey(Rest(q), key) < 0 then -1 else |Segment(q)| + 1 + FindKey(Rest(q), key)
  {
    hide Segment, Rest, PairOf, Names;
    var t, u, pat := Segment(q), Rest(q), "&" + key + "=";
    SegmentSplits(q);
    if '&' in q {
      assert q == t + ("&" + u);
      PrefixNames(t, "&" + u, key);
      IndexSkips(t, "&" + u, pat);
      IndexAtAmp(u, key);
      assert ("&" + u)[1..] == u;
    } else {
      assert q == t + "";
      PrefixNames(t, "", key);
      IndexNowhere(t, pat);
      IndexNowhere("", pat);
    }
  }

  // ---------------------------------------------------------------- get and set at the byte level

  /** Where the value of the pair beginning at `i` ends. */
  function ValueEnd(qs: string, i: nat): (e: nat)
    requires i <= |qs|
    ensures i <= e <= |qs|
  {
    i + IndexOf(qs[i..], '&')
  }

  /** `[i, ValueEnd)` is a segment `key=value`. */
  ghost predicate FoundAt(qs: string, key: string, i: int, value: string) {
    && 0 <= i <= |qs| && i + |key| + 1 <= ValueEnd(qs, i)
    && (i == 0 || qs[i - 1] == '&')
    && qs[i..i + |key| + 1] == key + "="
    && qs[i + |key| + 1..ValueEnd(qs, i)] == value
  }

  /** Where segment number `k` begins. */
  function StartOf(qs: string, k: nat): nat
    decreases k
  {
    if k == 0 then 0 else |Segment(qs)| + 1 + StartOf(Rest(qs), k - 1)
  }

  lemma FoundFirst(qs: string, key: string)
    requires IsKey(key) && Names(PairOf(Segment(qs)), key)
    ensures FoundAt(qs, key, 0, PairOf(Segment(qs)).value)
  {
    SegmentSplits(qs);
    SegmentEnds(qs);
    NamedValue(Segment(qs), key);
    assert qs[|key| + 1..ValueEnd(qs, 0)] == qs[..ValueEnd(qs, 0)][|key| + 1..];
    assert qs[..|key| + 1] == qs[..ValueEnd(qs, 0)][..|key| + 1];
  }

  lemma FoundBehind(t: string, u: string, key: string, j: int, value: string)
    requires '&' !in t && FoundAt(u, key, j, value)
    ensures FoundAt(t + "&" + u, key, |t| + 1 + j, value)
  {
    Shifted(t, u, j);
    SliceShifts(t + "&", u, j + |key| + 1, ValueEnd(u, j));
    SliceShifts(t + "&", u, j, j + |key| + 1);
    assert j > 0 ==> (t + "&" + u)[|t| + j] == u[j - 1];
  }

  lemma FirstNamedCons(p: Pair, ps: seq<Pair>, key: string)
    ensures FirstNamed([p] + ps, key) == if Names(p, key) then 0 else 1 + FirstNamed(ps, key)
  {
    assert ([p] + ps)[1..] == ps;
  }

  /** The found index starts the first pair of that name, and the value there is what `Lookup` finds. */
  lemma {:induction false} FindKeyIsLookup(qs: string, key: string)
    requires IsKey(key)
    ensures var i := FindKey(qs, key);
      if i < 0 then Lookup(Scan(qs), key) == None
      else Lookup(Scan(qs), key).Some? && FoundAt(qs, key, i, Lookup(Scan(qs), key).value)
    ensures FindKey(qs, key) >= 0 ==> FindKey(qs, key) == StartOf(qs, FirstNamed(Scan(qs), key))
    decreases |qs|
  {
    hide FindKey, Segment, Rest, PairOf, FoundAt, IsKey, Names, FirstNamed;
    if qs == "" {
      EmptyHasNoKey(key);
    } else {
      var t, u := Segment(qs), Rest(qs);
      FindKeyWalks(qs, key);
      SegmentSplits(qs);
      LookupCons(PairOf(t), Scan(u), key);
      FirstNamedCons(PairOf(t), Scan(u), key);
      if Names(PairOf(t), key) {
        FoundFirst(qs, key);
      } else {
        FindKeyIsLookup(u, key);
        EmptyHasNoKey(key);
        if FindKey(u, key) >= 0 { FoundBehind(t, u, key, FindKey(u, key), Lookup(Scan(u), key).value); }
      }
    }
  }

  lemma EmptyHasNoKey(key: string)
    ensures FindKey("", key) == -1
  {}

  lemma SegmentEnds(qs: string)
    ensures ValueEnd(qs, 0) == |Segment(qs)| && qs[..ValueEnd(qs, 0)] == Segment(qs)
  {
    assert qs[0..] == qs;
  }

  lemma NamedValue(t: string, key: string)
    requires '&' !in t && IsKey(key) && Names(PairOf(t), key)
    ensures |key| + 1 <= |t| && t[|key| + 1..] == PairOf(t).value && t[..|key| + 1] == key + "="
  {
    PrefixNames(t, "", key);
    assert t == key + "=" + PairOf(t).value;
    assert t[..|key| + 1] == key + "=";
  }

  lemma Shifted(t: string, u: string, j: nat)
    requires '&' !in t && j <= |u|
    ensures ValueEnd(t + "&" + u, |t| + 1 + j) == |t| + 1 + ValueEnd(u, j)
  {
    assert (t + "&" + u)[|t| + 1 + j..] == u[j..];
  }

  lemma SliceShifts(p: string, u: string, a: nat, b: nat)
    requires a <= b <= |u|
    ensures (p + u)[|p| + a..|p| + b] == u[a..b]
  {}

  function Replaced(qs: string, key: string, i: nat, value: string): string
    requires i <= |qs| && i + |key| + 1 <= |qs|
  {
    qs[..i + |key| + 1] + value + qs[ValueEnd(qs, i)..]
  }

  lemma {:induction false} PrintCons(p: Pair, ps: seq<Pair>)
    ensures Print([p] + ps) == if ps == [] then PrintPair(p) else PrintPair(p) + "&" + Print(ps)
  {
    assert ([p] + ps)[1..] == ps;
  }

  lemma {:induction false} PrintSnoc(ps: seq<Pair>, p: Pair)
    ensures Print(ps + [p]) == if ps == [] then PrintPair(p) else Print(ps) + "&" + PrintPair(p)
  {
    if ps != [] {
      PrintSnoc(ps[1..], p);
      assert (ps + [p])[1..] == ps[1..] + [p];
    }
  }

  lemma ReplacedFirst(t: string, u: string, key: string, value: string)
    requires '&' !in t && IsKey(key) && Names(PairOf(t), key)
    ensures |key| + 1 <= |t|
    ensures Replaced(t, key, 0, value) == key + "=" + value
    ensures Replaced(t + "&" + u, key, 0, value) == key + "=" + value + "&" + u
  {
    NamedValue(t, key);
    SegmentIs(t, u);
    SegmentEnds(t);
    SegmentEnds(t + "&" + u);
    assert (t + "&" + u)[..|key| + 1] == t[..|key| + 1];
    assert (t + "&" + u)[|t|..] == "&" + u;
    assert key + "=" + value + ("&" + u) == key + "=" + value + "&" + u;
    assert t[|t|..] == "";
    assert key + "=" + value + "" == key + "=" + value;
  }

  lemma ReplacedBehind(t: string, u: string, key: string, j: nat, value: string)
    requires '&' !in t && j <= |u| && j + |key| + 1 <= ValueEnd(u, j)
    ensures Replaced(t + "&" + u, key, |t| + 1 + j, value) == t + "&" + Replaced(u, key, j, value)
  {
    Shifted(t, u, j);
    var b, n, e := t + "&" + u, j + |key| + 1, ValueEnd(u, j);
    assert b[..|t| + 1 + n] == t + "&" + u[..n];
    assert b[|t| + 1 + e..] == u[e..];
    Regroup(t + "&", u[..n], value, u[e..]);
  }

  lemma Regroup(a: string, b: string, c: string, d: string)
    ensures a + b + c + d == a + (b + c + d)
  {}

  /** Overwriting the found value in place is the edit of the pair list. */
  lemma {:induction false} ReplacedIsEdit(qs: string, key: string, value: string)
    requires !EndsInAmp(qs) && IsKey(key) && FindKey(qs, key) >= 0
    ensures FindKey(qs, key) + |key| + 1 <= |qs|
    ensures Replaced(qs, key, FindKey(qs, key), value) == Print(Edit(Scan(qs), key, value))
    decreases |qs|
  {
    hide FindKey, Segment, Rest, PairOf, IsKey, Names, Replaced, EndsInAmp, DropTrailingAmp, PrintPair, Print, Edit,
      Scan, Lookup, FoundAt;
    FoundInside(qs, key);
    ScanCons(qs);
    EmptyHasNoKey(key);
    var t, u, p := Segment(qs), Rest(qs), Pair(key, value, false);
    SegmentSplits(qs);
    RestEnds(qs);
    FindKeyWalks(qs, key);
    PairPrints(t);
    KeyPrints(key, value);
    EditCons(PairOf(t), Scan(u), key, value);
    if Names(PairOf(t), key) {
      ReplacedFirst(t, u, key, value);
      PrintOfScan(u);
      ScanCons(u);
      PrintCons(p, Scan(u));
      NoTrailing(u);
      assert '&' in qs <==> u != "";
    } else {
      ReplacedIsEdit(u, key, value);
      FoundInside(u, key);
      ReplacedBehind(t, u, key, FindKey(u, key), value);
      PrintCons(PairOf(t), Edit(Scan(u), key, value));
    }
  }

  lemma FoundInside(qs: string, key: string)
    requires IsKey(key)
    ensures var i := FindKey(qs, key); i >= 0 ==> i <= |qs| && i + |key| + 1 <= ValueEnd(qs, i)
  {
    FindKeyIsLookup(qs, key);
  }

  lemma ScanCons(qs: string)
    ensures Scan("") == [] && (qs != "" ==> Scan(qs) == [PairOf(Segment(qs))] + Scan(Rest(qs)))
  {}

  lemma KeyPrints(key: string, value: string)
    ensures PrintPair(Pair(key, value, false)) == key + "=" + value
  {}

  lemma NoTrailing(u: string)
    requires !EndsInAmp(u)
    ensures DropTrailingAmp(u) == u
  {}

  lemma EditCons(p: Pair, ps: seq<Pair>, key: string, value: string)
    ensures Edit([p] + ps, key, value) ==
            if Names(p, key) then [Pair(key, value, false)] + ps else [p] + Edit(ps, key, value)
    ensures Edit(ps, key, value) != []
  {
    assert ([p] + ps)[1..] == ps;
  }

  /** When the key is not found, appending `key=value` is the edit of the pair list. */
  lemma AppendedIsEdit(qs: string, key: string, value: string)
    requires !EndsInAmp(qs) && IsKey(key) && FindKey(qs, key) < 0
    ensures (if |qs| > 0 then qs + "&" else qs) + key + "=" + value == Print(Edit(Scan(qs), key, value))
  {
    hide FindKey, PrintPair, Segment, Rest, PairOf;
    var p := Pair(key, value, false);
    FindKeyIsLookup(qs, key);
    EditTouchesOnePair(Scan(qs), key, value);
    NotNamed(Scan(qs), key);
    PrintSnoc(Scan(qs), p);
    PrintOfScan(qs);
    KeyPrints(key, value);
    if qs == "" {
      assert qs + key + "=" + value == key + "=" + value;
    } else {
      assert qs + "&" + key + "=" + value == qs + "&" + (key + "=" + value);
    }
  }

  lemma {:induction false} NotNamed(ps: seq<Pair>, key: string)
    requires Lookup(ps, key) == None
    ensures FirstNamed(ps, key) == |ps|
  {
    if ps != [] { NotNamed(ps[1..], key); }
  }

  // ---------------------------------------------------------------- keys and values with separators

  lemma {:induction false} IndexFinds(s: string, t: string)
    ensures Index(s, t) >= 0 ==> Index(s, t) + |t| <= |s| && s[Index(s, t)..][..|t|] == t
  {
    if !HasPrefix(s, t) && s != "" {
      IndexFinds(s[1..], t);
      assert Index(s[1..], t) >= 0 ==> s[1..][Index(s[1..], t)..] == s[1 + Index(s[1..], t)..];
    } else if HasPrefix(s, t) {
      assert s[0..] == s;
    }
  }

  /** What is found begins with `key=`, whatever the key. */
  lemma FindKeyFinds(qs: string, key: string)
    ensures var i := FindKey(qs, key); i >= 0 ==> i + |key| + 1 <= |qs| && qs[i..i + |key| + 1] == key + "="
  {
    var i, pat := FindKey(qs, key), "&" + key + "=";
    if HasPrefix(qs, key + "=") {
      assert qs[0..|key| + 1] == qs[..|key| + 1];
    } else if i >= 0 {
      IndexFinds(qs, pat);
      assert qs[i..i + |key| + 1] == qs[i - 1..][..|pat|][1..];
      assert pat[1..] == key + "=";
    }
  }

  /** `key=` stands at `i`, and there begins the string or a segment. */
  ghost predicate StandsAt(qs: string, key: string, i: nat) {
    && i + |key| + 1 <= |qs| && qs[i..i + |key| + 1] == key + "="
    && (i == 0 || qs[i - 1] == '&')
  }

  lemma {:induction false} IndexIsFirst(s: string, t: string, k: nat)
    requires k + |t| <= |s| && s[k..k + |t|] == t
    ensures 0 <= Index(s, t) <= k
  {
    if !HasPrefix(s, t) {
      assert s[0..|t|] == s[..|t|];
      IndexIsFirst(s[1..], t, k - 1);
    }
  }

  /** For any key the search finds the first place where `key=` begins the string or a segment, if there is any. */
  lemma FindKeyIsFirstPlace(qs: string, key: string, k: nat)
    ensures FindKey(qs, key) >= 0 ==> StandsAt(qs, key, FindKey(qs, key))
    ensures StandsAt(qs, key, k) ==> 0 <= FindKey(qs, key) <= k
  {
    var i, pat := FindKey(qs, key), "&" + key + "=";
    FindKeyFinds(qs, key);
    if i > 0 { FoundBehindAmp(qs, key); }
    if StandsAt(qs, key, k) {
      if k == 0 {
        assert qs[..|key| + 1] == qs[0..|key| + 1];
      } else {
        assert qs[k - 1..k - 1 + |pat|] == "&" + qs[k..k + |key| + 1];
        assert pat == "&" + (key + "=");
        IndexIsFirst(qs, pat, k - 1);
      }
    }
  }

  lemma FoundBehindAmp(qs: string, key: string)
    requires FindKey(qs, key) > 0
    ensures FindKey(qs, key) <= |qs| && qs[FindKey(qs, key) - 1] == '&'
  {
    var pat := "&" + key + "=";
    IndexFinds(qs, pat);
    assert qs[Index(qs, pat)..][..|pat|][0] == pat[0];
  }

  /**
   * What a set does for any key without `&`, and any value: in the trimmed string, the text behind the first place
   * of `key=` up to the next `&` is replaced; without such a place, `key=value` becomes the last segment.
   */
  lemma SetReplacesAtFirstPlace(query: string, key: string, value: string)
    returns (before: string, was: string, behind: string)
    requires '&' !in key
    ensures var qs, i := Trim(query), FindKey(Trim(query), key);
      if i < 0 then EditBytes(query, key, value) == (if qs == "" then "" else qs + "&") + key + "=" + value
      else
        && qs == before + (key + "=") + was + behind && |before| == i && '&' !in was
        && (behind == "" || behind[0] == '&')
        && EditBytes(query, key, value) == before + (key + "=") + value + behind
  {
    hide FindKey, Trim, IndexOf;
    var qs, i := Trim(query), FindKey(Trim(query), key);
    before, was, behind := "", "", "";
    FindKeyFinds(qs, key);
    if i >= 0 {
      var e, j := ValueEnd(qs, i), i + |key| + 1;
      NoAmpBefore(qs, key, i);
      before, was, behind := qs[..i], qs[j..e], qs[e..];
      assert qs[..j] == before + (key + "=");
      assert qs == qs[..j] + was + behind;
    }
  }

  /** The value ends behind `key=` when the key has no `&`, and at the next `&`. */
  lemma NoAmpBefore(qs: string, key: string, i: nat)
    requires '&' !in key && i + |key| + 1 <= |qs| && qs[i..i + |key| + 1] == key + "="
    ensures var e, j := ValueEnd(qs, i), i + |key| + 1;
      j <= e <= |qs| && '&' !in qs[j..e] && (e < |qs| ==> qs[e] == '&')
  {
    hide IndexOf;
    var w, tail, e := key + "=", qs[i..], ValueEnd(qs, i);
    assert forall k :: 0 <= k < |w| ==> tail[k] == qs[i..i + |w|][k] == w[k];
    assert '&' !in w;
    assert forall k :: 0 <= k < |tail| ==> tail[k] == qs[i + k];
    forall k | i + |w| <= k < e ensures qs[k] != '&' { assert tail[k - i] != '&'; }
  }

  lemma SeparatorsShow(key: string, value: string)
    ensures FindKey(key + "=", key) == 0 && FindKey("", key) == -1
    ensures EditBytes("", key, value) == key + "=" + value
  {
    PrefixOfSum(key + "=", "");
    assert key + "=" + "" == key + "=";
  }

  /** The result of `setKeyValue` for any key and value. */
  function EditBytes(query: string, key: string, value: string): string {
    var qs, i := Trim(query), FindKey(Trim(query), key);
    FindKeyFinds(qs, key);
    if i >= 0 then Replaced(qs, key, i, value) else (if |qs| > 0 then qs + "&" else qs) + key + "=" + value
  }

  /** What a lookup comes to: slicing behind a key that is cut short by its own `&` panics. */
  datatype Read = Value(value: string) | Absent | Panics

  /** The result of `getKeyValue` for any key. */
  function ReadBytes(qs: string, key: string): Read {
    var i := FindKey(qs, key);
    FindKeyFinds(qs, key);
    if i < 0 then Absent
    else if ValueEnd(qs, i) < i + |key| + 1 then Panics
    else Value(qs[i + |key| + 1..ValueEnd(qs, i)])
  }

  function AsRead(found: Option<string>): Read { if found.Some? then Value(found.value) else Absent }

  lemma ReadIsLookup(qs: string, key: string)
    requires IsKey(key)
    ensures ReadBytes(qs, key) == AsRead(Lookup(Scan(qs), key))
  {
    hide FindKey, Lookup, Scan, IsKey;
    FindKeyIsLookup(qs, key);
  }

  lemma EditBytesIsEdit(query: string, key: string, value: string)
    requires IsKey(key) && IsValue(value)
    ensures EditBytes(query, key, value) == SetKey(query, key, value)
    ensures Scan(EditBytes(query, key, value)) == Edit(Scan(Trim(query)), key, value)
  {
    hide FindKey, Scan, Edit, Print, Trim, EndsInAmp, IsKey, IsValue, Replaced;
    SetThenScan(query, key, value);
    Trimmed(query);
    if FindKey(Trim(query), key) >= 0 {
      ReplacedIsEdit(Trim(query), key, value);
    } else {
      AppendedIsEdit(Trim(query), key, value);
    }
  }

  lemma {:induction false} LookupIsNamed(ps: seq<Pair>, key: string)
    ensures Lookup(ps, key).Some? ==> exists k :: 0 <= k < |ps| && Names(ps[k], key)
  {
    if ps != [] && !Names(ps[0], key) {
      LookupIsNamed(ps[1..], key);
      if Lookup(ps[1..], key).Some? {
        var k :| 0 <= k < |ps| - 1 && Names(ps[1..][k], key);
        assert Names(ps[k + 1], key);
      }
    }
  }

  /** Reading agrees with the pair list for every query string exactly when the key has no separator. */
  lemma ReadsExactlyKeys(key: string)
    ensures (forall qs :: ReadBytes(qs, key) == AsRead(Lookup(Scan(qs), key))) <==> IsKey(key)
  {
    hide FindKey, Scan, Lookup, Names;
    if IsKey(key) {
      forall qs ensures ReadBytes(qs, key) == AsRead(Lookup(Scan(qs), key)) { ReadIsLookup(qs, key); }
    } else {
      var qs := key + "=";
      SeparatorsShow(key, "");
      LookupIsNamed(Scan(qs), key);
      if Lookup(Scan(qs), key).Some? {
        var k :| 0 <= k < |Scan(qs)| && Names(Scan(qs)[k], key);
        ScannedPairsArePlain(qs, k);
        assert Scan(qs)[k].key == key by { NamesMeans(Scan(qs)[k], key); }
      }
      assert ReadBytes(qs, key) != AsRead(Lookup(Scan(qs), key));
    }
  }

  lemma NamesMeans(p: Pair, key: string)
    ensures Names(p, key) ==> p.key == key
  {}

  /** A read panics for some query string exactly when the key has an `&`. */
  lemma PanicsExactlyOnAmp(key: string)
    ensures (exists qs :: ReadBytes(qs, key) == Panics) <==> '&' in key
  {
    hide FindKey;
    if '&' in key {
      var qs := key + "=";
      SeparatorsShow(key, "");
      var j :| 0 <= j < |key| && key[j] == '&';
      assert qs[0..] == qs && qs[j] == '&';
      assert ReadBytes(qs, key) == Panics;
    } else {
      forall qs ensures ReadBytes(qs, key) != Panics {
        FindKeyFinds(qs, key);
        var i := FindKey(qs, key);
        if i >= 0 {
          assert forall j :: 0 <= j <= |key| ==> qs[i..][j] == (key + "=")[j] by {
            assert forall j :: 0 <= j <= |key| ==> qs[i..][j] == qs[i..i + |key| + 1][j];
          }
        }
      }
    }
  }

  /**
   * Setting agrees with the pair list for every query string exactly when neither the key nor the value has a
   * separator that would split it.
   */
  lemma EditsExactlyKeysAndValues(key: string, value: string)
    ensures (forall qs :: Scan(EditBytes(qs, key, value)) == Edit(Scan(Trim(qs)), key, value))
      <==> IsKey(key) && IsValue(value)
  {
    hide FindKey, EditBytes;
    if IsKey(key) && IsValue(value) {
      forall qs ensures Scan(EditBytes(qs, key, value)) == Edit(Scan(Trim(qs)), key, value) {
        EditBytesIsEdit(qs, key, value);
      }
    } else {
      SeparatorsShow(key, value);
      var result := Scan(EditBytes("", key, value));
      if result == Edit(Scan(Trim("")), key, value) {
        assert result[0] == Pair(key, value, false);
        ScannedPairsArePlain(EditBytes("", key, value), 0);
      }
    }
  }

  // ---------------------------------------------------------------- the code

  method NextValue(qs: string) returns (n: nat)
    ensures n == IndexOf(qs, '&')
  {
    var i := 0;
    while i < |qs|
      invariant 0 <= i <= |qs| && forall k :: 0 <= k < i ==> qs[k] != '&'
    {
      if qs[i] == '&' {
        IndexOfIs(qs, '&', i);
        return i;
      }
      i := i + 1;
    }
    IndexOfIs(qs, '&', |qs|);
    return |qs|;
  }

  method ReplaceValue(qs: string, start: nat, end: nat, value: string) returns (pre: string)
    requires start <= |qs| && end <= |qs|
    ensures pre == qs[..start] + value + qs[end..]
  {
    pre := [];
    pre := pre + qs[..start];
    pre := pre + value;
    pre := pre + qs[end..];
  }

  /** Setting a key edits the pair list of the trimmed string, for keys and values without separators. */
  method SetKeyValue(query: string, key: string, value: string) returns (qs: string)
    ensures qs == EditBytes(query, key, value)
    ensures IsKey(key) && IsValue(value) ==> qs == SetKey(query, key, value)
    ensures IsKey(key) && IsValue(value) ==> Scan(qs) == Edit(Scan(Trim(query)), key, value)
  {
    hide FindKey, Scan, Edit, Print, Trim, EndsInAmp, IsKey, IsValue, IndexOf, SetKey;
    if IsKey(key) && IsValue(value) { EditBytesIsEdit(query, key, value); }
    qs := Trim(query);
    FindKeyFinds(qs, key);
    var index := FindKey(qs, key);
    if index >= 0 {
      var vIndex := NextValue(qs[index..]);
      qs := ReplaceValue(qs, index + |key| + 1, index + vIndex, value);
      return;
    }
    if |qs| > 0 {
      qs := qs + "&";
    }
    qs := qs + key;
    qs := qs + "=";
    qs := qs + value;
  }

  /**
   * The value of the first pair named `key` that has an `=`, absent exactly when there is no such pair, for keys
   * without separators.
   */
  method GetKeyValue(qs: string, key: string) returns (value: Read)
    ensures value == ReadBytes(qs, key)
    ensures IsKey(key) ==> value == AsRead(Lookup(Scan(qs), key))
  {
    hide FindKey, Scan, Lookup, IsKey;
    if IsKey(key) { ReadIsLookup(qs, key); }
    FindKeyFinds(qs, key);
    var index := FindKey(qs, key);
    if index >= 0 {
      var vIndex := NextValue(qs[index..]);
      if vIndex < |key| + 1 {
        return Panics;
      }
      return Value(qs[index + |key| + 1..index + vIndex]);
    }
    return Absent;
  }

  class ArgsKV {
    var key: string
    var value: string
    var noValue: bool

    constructor ()
      ensures key == "" && value == "" && !noValue
    {
      key, value, noValue := "", "", false;
    }

    function AsPair(): Pair
      reads this
    {
      Pair(key, value, noValue)
    }
  }

  class ArgsScanner {
    var b: string

    constructor (b: string)
      ensures this.b == b
    {
      this.b := b;
    }

    /** Moves past the first segment and leaves its pair in `kv`; the remaining slice strictly shrinks. */
    method Next(kv: ArgsKV) returns (more: bool)
      modifies this, kv
      ensures more == (old(b) != "")
      ensures !more ==> b == old(b) && kv.AsPair() == old(kv.AsPair())
      ensures more ==> kv.AsPair() == PairOf(Segment(old(b))) && b == Rest(old(b)) && |b| < |old(b)|
    {
      hide PairOf, Segment, Rest;
      if |b| == 0 {
        return false;
      }
      kv.noValue := false;
      var isKey := true;
      var k := 0;
      var i := 0;
      while i < |b|
        invariant 0 <= i <= |b| && b == old(b) && !kv.noValue
        invariant forall j :: 0 <= j < i ==> b[j] != '&'
        invariant isKey ==> forall j :: 0 <= j < i ==> b[j] != '='
        invariant !isKey ==> 0 < k <= i && b[k - 1] == '=' && kv.key == b[..k - 1]
        invariant !isKey ==> forall j :: 0 <= j < k - 1 ==> b[j] != '='
      {
        var c := b[i];
        if c == '=' {
          if isKey {
            isKey := false;
            kv.key := b[..i];
            k := i + 1;
          }
        } else if c == '&' {
          SegmentAt(b, i, if isKey then i else k - 1);
          if isKey {
            kv.key := b[..i];
            kv.value := "";
            kv.noValue := true;
          } else {
            kv.value := b[k..i];
          }
          b := b[i + 1..];
          return true;
        }
        i := i + 1;
      }
      SegmentAt(b, |b|, if isKey then |b| else k - 1);
      if isKey {
        kv.key := b;
        kv.value := "";
        kv.noValue := true;
      } else {
        kv.value := b[k..];
      }
      b := b[|b|..];
      return true;
    }
  }

  /** A segment that ends at `i` and has its first `=`, if any, at `e`. */
  lemma SegmentAt(b: string, i: nat, e: nat)
    requires b != "" && e <= i <= |b| && (i < |b| ==> b[i] == '&') && (e < i ==> b[e] == '=')
    requires (forall k :: 0 <= k < i ==> b[k] != '&') && (forall k :: 0 <= k < e ==> b[k] != '=')
    ensures PairOf(Segment(b)) == if e < i then Pair(b[..e], b[e + 1..i], false) else Pair(b[..i], "", true)
    ensures Rest(b) == if i < |b| then b[i + 1..] else ""
    ensures i == |b| ==> b[..i] == b && b[e..] == b[e..i]
  {
    IndexOfIs(b, '&', i);
    IndexOfIs(b[..i], '=', e);
    if e < i {
      assert b[..i][..e] == b[..e] && b[..i][e + 1..] == b[e + 1..i];
    }
  }

  /** `VisitAllQueryArg`: the loop around `Next` visits exactly the scanned pairs, in order. */
  method VisitAll(qs: string) returns (visited: seq<Pair>)
    ensures visited == Scan(qs)
  {
    hide Scan, Segment, Rest, PairOf;
    ScanCons(qs);
    var s := new ArgsScanner(qs);
    var kv := new ArgsKV();
    visited := [];
    var more := s.Next(kv);
    ghost var rest := qs;
    while more
      invariant more == (rest != "")
      invariant more ==> kv.AsPair() == PairOf(Segment(rest)) && s.b == Rest(rest) && |s.b| < |rest|
      invariant Scan(qs) == visited + Scan(rest)
      decreases |rest|
    {
      ScanCons(rest);
      ConsAssoc(visited, kv.AsPair(), Scan(s.b));
      visited := visited + [kv.AsPair()];
      rest := s.b;
      more := s.Next(kv);
    }
  }

  lemma ConsAssoc(ps: seq<Pair>, p: Pair, qs: seq<Pair>)
    ensures ps + ([p] + qs) == ps + [p] + qs
  {}
}
