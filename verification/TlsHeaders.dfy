/**
 * Cookie strings of reqwest/tls_request.go: every cookie followed by a semicolon and a space. A cookie is a text
 * `name=value`; a text with a separator inside counts as several cookies.
 */
module CookieText {
  import opened Basics

  /** A separator `; ` at `i`. */
  predicate SeparatorAt(s: string, i: int) { 0 <= i && i + 1 < |s| && s[i] == ';' && s[i + 1] == ' ' }

  predicate IsPlain(s: string) { forall i {:trigger SeparatorAt(s, i)} :: 0 <= i < |s| ==> !SeparatorAt(s, i) }

  ghost predicate AllPlain(cookies: seq<string>) { forall k :: 0 <= k < |cookies| ==> IsPlain(cookies[k]) }

  function Print(cookies: seq<string>): string {
    if cookies == [] then "" else cookies[0] + "; " + Print(cookies[1..])
  }

  /** The index of the first `=`, or the length. */
  function FirstEquals(s: string): (i: nat)
    ensures i <= |s| && (i < |s| ==> s[i] == '=')
    ensures forall k :: 0 <= k < i ==> s[k] != '='
  {
    if s == "" || s[0] == '=' then 0 else 1 + FirstEquals(s[1..])
  }

  /** What stands before the first `=` is the name of a cookie. */
  predicate IsNamed(cookie: string, name: string) { '=' in cookie && cookie[..FirstEquals(cookie)] == name }

  /** The cookies with another name, or with none, in order. */
  function Without(cookies: seq<string>, name: string): seq<string> {
    if cookies == [] then []
    else (if IsNamed(cookies[0], name) then [] else [cookies[0]]) + Without(cookies[1..], name)
  }

  /** The cookies that do not begin with `name=`. */
  function Filter(cookies: seq<string>, name: string): seq<string> {
    if cookies == [] then []
    else (if HasPrefix(cookies[0], name + "=") then [] else [cookies[0]]) + Filter(cookies[1..], name)
  }

  /** The first separator, or the length. */
  function FirstSeparator(s: string): (i: nat)
    ensures i <= |s|
    ensures SeparatorAt(s, i) || i == |s|
  {
    if s == "" || SeparatorAt(s, 0) then 0 else 1 + FirstSeparator(s[1..])
  }

  /** `strings.Split(s, "; ")`. */
  function Split(s: string): seq<string>
    decreases |s|
  {
    var i := FirstSeparator(s);
    if SeparatorAt(s, i) then [s[..i]] + Split(s[i + 2..]) else [s]
  }

  /** `strings.Join(pieces, "; ")`. */
  function Join(pieces: seq<string>): string {
    if pieces == [] then "" else if |pieces| == 1 then pieces[0] else pieces[0] + "; " + Join(pieces[1..])
  }

  // ---------------------------------------------------------------- splitting what was printed

  lemma {:induction false} FirstSeparatorIs(s: string, i: nat)
    requires i <= |s| && (i < |s| ==> SeparatorAt(s, i))
    requires forall k {:trigger SeparatorAt(s, k)} :: 0 <= k < i ==> !SeparatorAt(s, k)
    ensures FirstSeparator(s) == i
  {
    if i > 0 {
      forall k {:trigger SeparatorAt(s[1..], k)} | 0 <= k < i - 1 ensures !SeparatorAt(s[1..], k) {
        assert SeparatorAt(s[1..], k) == SeparatorAt(s, k + 1);
      }
      assert !SeparatorAt(s, 0);
      assert i < |s| ==> SeparatorAt(s[1..], i - 1);
      FirstSeparatorIs(s[1..], i - 1);
    }
  }

  lemma {:induction false} FirstSeparatorIsFirst(s: string, k: nat)
    requires k < FirstSeparator(s)
    ensures !SeparatorAt(s, k)
  {
    if k > 0 {
      FirstSeparatorIsFirst(s[1..], k - 1);
      assert SeparatorAt(s[1..], k - 1) == SeparatorAt(s, k);
    }
  }

  /** A plain text ends exactly at the separator printed behind it, even when it ends in `;`. */
  lemma SplitOne(piece: string, rest: string)
    requires IsPlain(piece)
    ensures Split(piece + "; " + rest) == [piece] + Split(rest) && Split(piece) == [piece]
  {
    var s := piece + "; " + rest;
    assert SeparatorAt(s, |piece|);
    forall k {:trigger SeparatorAt(s, k)} | 0 <= k < |piece| ensures !SeparatorAt(s, k) {
      assert !SeparatorAt(piece, k);
      if k + 1 < |piece| {
        assert s[k] == piece[k] && s[k + 1] == piece[k + 1];
      } else {
        assert s[k + 1] == ';';
      }
    }
    FirstSeparatorIs(s, |piece|);
    FirstSeparatorIs(piece, |piece|);
    assert s[..|piece|] == piece && s[|piece| + 2..] == rest;
  }

  /** What stands before the first separator is plain. */
  lemma HeadIsPlain(s: string)
    ensures IsPlain(s[..FirstSeparator(s)])
    ensures SeparatorAt(s, FirstSeparator(s)) ==>
      s == s[..FirstSeparator(s)] + "; " + s[FirstSeparator(s) + 2..]
    ensures !SeparatorAt(s, FirstSeparator(s)) ==> s[..FirstSeparator(s)] == s
  {
    var i := FirstSeparator(s);
    forall k {:trigger SeparatorAt(s[..i], k)} | 0 <= k < i ensures !SeparatorAt(s[..i], k) {
      FirstSeparatorIsFirst(s, k);
      assert SeparatorAt(s[..i], k) ==> SeparatorAt(s, k);
    }
  }

  /** How a text splits: at its first separator, if it has one. */
  lemma SplitFirst(s: string)
    ensures var i := FirstSeparator(s);
      if SeparatorAt(s, i) then
        Split(s) == [s[..i]] + Split(s[i + 2..]) && s == s[..i] + "; " + s[i + 2..] && IsPlain(s[..i])
      else
        Split(s) == [s] && IsPlain(s)
  {
    HeadIsPlain(s);
  }

  /** Splitting behind any text: whatever it consists of is split off it. */
  lemma {:induction false} SplitConcat(s: string, rest: string)
    ensures Split(s + "; " + rest) == Split(s) + Split(rest) && AllPlain(Split(s))
    decreases |s|
  {
    hide IsPlain, FirstSeparator, Split;
    SplitFirst(s);
    var i := FirstSeparator(s);
    if SeparatorAt(s, i) {
      var head, tail := s[..i], s[i + 2..];
      SplitConcat(tail, rest);
      SplitOne(head, tail + "; " + rest);
      Regroup(head, tail, rest);
    } else {
      SplitOne(s, rest);
    }
  }

  lemma Regroup(a: string, b: string, c: string)
    ensures a + "; " + b + "; " + c == a + "; " + (b + "; " + c)
  {}

  lemma {:induction false} SplitOfPrint(cookies: seq<string>)
    requires AllPlain(cookies)
    ensures Split(Print(cookies)) == cookies + [""]
  {
    hide IsPlain, Split, Print;
    if cookies == [] {
      PrintIsEmpty(cookies);
      SplitFirst("");
    } else {
      var tail := cookies[1..];
      SplitOfPrint(tail);
      SplitOne(cookies[0], Print(tail));
      PrintCons(cookies[0], tail);
      assert cookies == [cookies[0]] + tail;
    }
  }

  lemma {:induction false} JoinIsPrint(cookies: seq<string>)
    ensures Join(cookies + [""]) == Print(cookies)
  {
    if cookies != [] {
      JoinIsPrint(cookies[1..]);
      assert (cookies + [""])[1..] == cookies[1..] + [""];
    }
  }

  /** Printing what a text splits into is printing the text. */
  lemma {:induction false} PrintOfSplit(s: string)
    ensures Print(Split(s)) == s + "; "
    decreases |s|
  {
    HeadIsPlain(s);
    var i := FirstSeparator(s);
    if SeparatorAt(s, i) {
      PrintOfSplit(s[i + 2..]);
      assert ([s[..i]] + Split(s[i + 2..]))[1..] == Split(s[i + 2..]);
    } else {
      assert [s][1..] == [];
      assert s + "; " + "" == s + "; ";
    }
  }

  lemma {:induction false} PrintConcat(cookies: seq<string>, more: seq<string>)
    ensures Print(cookies + more) == Print(cookies) + Print(more)
  {
    hide Print;
    PrintIsEmpty(cookies);
    if cookies == [] {
      assert cookies + more == more;
    } else {
      PrintConcat(cookies[1..], more);
      assert cookies + more == [cookies[0]] + (cookies[1..] + more);
      PrintCons(cookies[0], cookies[1..]);
      PrintCons(cookies[0], cookies[1..] + more);
      assert [cookies[0]] + cookies[1..] == cookies;
    }
  }

  lemma PrintCons(cookie: string, cookies: seq<string>)
    ensures Print([cookie] + cookies) == cookie + "; " + Print(cookies)
  {
    assert ([cookie] + cookies)[1..] == cookies;
  }

  lemma PrintIsEmpty(cookies: seq<string>)
    ensures Print(cookies) == "" <==> cookies == []
  {}

  // ---------------------------------------------------------------- deleting

  lemma FilterCons(cookie: string, cookies: seq<string>, name: string)
    ensures Filter([cookie] + cookies, name) ==
            (if HasPrefix(cookie, name + "=") then [] else [cookie]) + Filter(cookies, name)
  {
    assert ([cookie] + cookies)[1..] == cookies;
  }

  lemma {:induction false} FilterConcat(cookies: seq<string>, more: seq<string>, name: string)
    ensures Filter(cookies + more, name) == Filter(cookies, name) + Filter(more, name)
  {
    hide Filter, HasPrefix;
    FilterOne("", name);
    if cookies == [] {
      assert cookies + more == more;
    } else {
      var cookie, tail := cookies[0], cookies[1..];
      FilterConcat(tail, more, name);
      FilterCons(cookie, tail, name);
      FilterCons(cookie, tail + more, name);
      assert cookies == [cookie] + tail && cookies + more == [cookie] + (tail + more);
    }
  }

  lemma FilterOne(cookie: string, name: string)
    ensures Filter([cookie], name) == (if HasPrefix(cookie, name + "=") then [] else [cookie]) && Filter([], name) == []
  {
    assert [cookie][1..] == [];
  }

  /** Splitting, filtering by prefix and joining again is printing the filtered cookies, for any name. */
  lemma DeletingIsFiltering(cookies: seq<string>, name: string)
    requires AllPlain(cookies)
    ensures Join(Filter(Split(Print(cookies)), name)) == Print(Filter(cookies, name))
    ensures AllPlain(Filter(cookies, name))
  {
    SplitOfPrint(cookies);
    FilterConcat(cookies, [""], name);
    FilterOne("", name);
    JoinIsPrint(Filter(cookies, name));
    FilterIsPlain(cookies, name);
  }

  lemma {:induction false} FilterIsPlain(cookies: seq<string>, name: string)
    requires AllPlain(cookies)
    ensures AllPlain(Filter(cookies, name))
  {
    if cookies != [] { FilterIsPlain(cookies[1..], name); }
  }

  lemma {:induction false} FirstEqualsIs(s: string, i: nat)
    requires i < |s| && s[i] == '=' && forall k :: 0 <= k < i ==> s[k] != '='
    ensures FirstEquals(s) == i
  {}

  /** A cookie begins with `name=` exactly when that is its name. */
  lemma PrefixIsName(cookie: string, name: string)
    requires '=' !in name
    ensures HasPrefix(cookie, name + "=") <==> IsNamed(cookie, name)
  {
    var t, e := name + "=", FirstEquals(cookie);
    if HasPrefix(cookie, t) {
      assert forall k :: 0 <= k < |t| ==> cookie[k] == t[k];
      FirstEqualsIs(cookie, |name|);
      assert cookie[..|name|] == cookie[..|t|][..|name|];
    }
    if IsNamed(cookie, name) {
      assert e < |cookie|;
      assert cookie[..e + 1] == cookie[..e] + [cookie[e]];
    }
  }

  /** The name of a printed cookie is what was printed as its name. */
  lemma NamedAsPrinted(name: string, value: string, other: string)
    requires '=' !in name
    ensures IsNamed(name + "=" + value, other) <==> other == name
  {
    var cookie := name + "=" + value;
    assert forall k :: 0 <= k < |name| ==> cookie[k] == name[k];
    assert cookie[|name|] == '=';
    FirstEqualsIs(cookie, |name|);
    assert cookie[..|name|] == name;
  }

  lemma {:induction false} FilterIsByName(cookies: seq<string>, name: string)
    requires '=' !in name
    ensures Filter(cookies, name) == Without(cookies, name)
  {
    hide HasPrefix, IsNamed;
    if cookies != [] {
      PrefixIsName(cookies[0], name);
      FilterIsByName(cookies[1..], name);
    }
  }

  /**
   * Deleting is by name, whatever cookies there are, exactly for names without `=`, and for those that no cookie
   * begins with because a separator is inside.
   */
  lemma DeletesExactlyNames(name: string)
    ensures (forall cookies :: AllPlain(cookies) ==> Filter(cookies, name) == Without(cookies, name))
      <==> '=' !in name || !IsPlain(name + "=")
  {
    if '=' !in name {
      forall cookies ensures Filter(cookies, name) == Without(cookies, name) { FilterIsByName(cookies, name); }
    } else if IsPlain(name + "=") {
      var cookie := name + "=";
      assert AllPlain([cookie]);
      FilterOne(cookie, name);
      NameHasNoEquals(cookie, name);
      assert Without([cookie], name) == [cookie] + Without([cookie][1..], name);
      assert Filter([cookie], name) != Without([cookie], name);
    } else {
      forall cookies | AllPlain(cookies) ensures Filter(cookies, name) == Without(cookies, name) {
        NoneMatches(cookies, name);
      }
    }
  }

  lemma NameHasNoEquals(cookie: string, name: string)
    requires '=' in name
    ensures !IsNamed(cookie, name)
  {}

  /** No plain cookie begins with a text that has a separator. */
  lemma {:induction false} NoneMatches(cookies: seq<string>, name: string)
    requires AllPlain(cookies) && '=' in name && !IsPlain(name + "=")
    ensures Filter(cookies, name) == cookies == Without(cookies, name)
  {
    if cookies != [] {
      var t := name + "=";
      if HasPrefix(cookies[0], t) {
        var i :| 0 <= i < |t| && SeparatorAt(t, i);
        assert cookies[0][..|t|] == t;
        assert SeparatorAt(cookies[0], i);
      }
      NameHasNoEquals(cookies[0], name);
      NoneMatches(cookies[1..], name);
    }
  }
}

/** The ordered headers and the cookie string of a request. */
module TlsHeaders {
  import opened Basics
  import opened CookieText

  /** The key under which the HTTP library looks for the order. */
  const HEADER_ORDER_KEY := "Header-Order:"

  /** The order in which a browser sends its headers. */
  const DEFAULT_HEADER_ORDER := [
    "sec-ch-ua-platform", "user-agent", "accept", "x-secsdk-csrf-token", "content-type", "sec-ch-ua",
    "sec-ch-ua-mobile", "origin", "sec-fetch-site", "sec-fetch-mode", "sec-fetch-dest", "sec-fetch-storage-access",
    "referer", "accept-encoding", "accept-language", "cookie", "priority"]

  /**
   * Case-insensitive comparison with a name of lower-case ASCII letters: besides the upper-case letters only the
   * long s and the Kelvin sign fold into one.
   */
  function FoldChar(c: char): char {
    if 'A' <= c <= 'Z' then (c as int - 'A' as int + 'a' as int) as char
    else if c == '\U{017F}' then 's'
    else if c == '\U{212A}' then 'k'
    else c
  }

  function Fold(s: string): string { seq(|s|, i requires 0 <= i < |s| => FoldChar(s[i])) }

  predicate IsLowerName(s: string) { forall k :: 0 <= k < |s| ==> s[k] == '-' || 'a' <= s[k] <= 'z' }

  lemma FirstNamesAreLower(i: nat)
    requires i < 6
    ensures IsLowerName(DEFAULT_HEADER_ORDER[i])
  {}

  lemma MiddleNamesAreLower(i: nat)
    requires 6 <= i < 11
    ensures IsLowerName(DEFAULT_HEADER_ORDER[i])
  {}

  lemma LastNamesAreLower(i: nat)
    requires 11 <= i < |DEFAULT_HEADER_ORDER|
    ensures IsLowerName(DEFAULT_HEADER_ORDER[i])
  {}

  lemma DefaultNamesAreLower(i: nat)
    requires i < |DEFAULT_HEADER_ORDER|
    ensures IsLowerName(DEFAULT_HEADER_ORDER[i])
  {
    hide IsLowerName;
    if i < 6 {
      FirstNamesAreLower(i);
    } else if i < 11 {
      MiddleNamesAreLower(i);
    } else {
      LastNamesAreLower(i);
    }
  }

  /** One character stands for a lower-case letter or a dash: itself, its upper case, the long s or the Kelvin sign. */
  predicate StandsFor(c: char, letter: char) {
    || c == letter
    || ('a' <= letter <= 'z' && c as int == letter as int - 32)
    || (letter == 's' && c == '\U{017F}')
    || (letter == 'k' && c == '\U{212A}')
  }

  /** A name matches a lower-case one exactly when it is that name in any case. */
  lemma MatchesAnyCase(h: string, name: string)
    requires IsLowerName(name)
    ensures Fold(h) == Fold(name) <==> |h| == |name| && forall k :: 0 <= k < |h| ==> StandsFor(h[k], name[k])
  {
    var f, g := Fold(h), Fold(name);
    assert |f| == |h| && |g| == |name|;
    assert forall k :: 0 <= k < |h| ==> f[k] == FoldChar(h[k]);
    assert forall k :: 0 <= k < |name| ==> g[k] == FoldChar(name[k]) == name[k];
    assert forall k :: 0 <= k < |h| && k < |name| ==> (FoldChar(h[k]) == name[k] <==> StandsFor(h[k], name[k]));
    if |h| == |name| && forall k :: 0 <= k < |h| ==> StandsFor(h[k], name[k]) {
      assert f == g;
    }
  }

  /** A header in its usual case takes the place of the default name. */
  lemma UserAgentMatches()
    ensures Fold("User-Agent") == Fold(DEFAULT_HEADER_ORDER[1])
  {
    DefaultNamesAreLower(1);
    MatchesAnyCase("User-Agent", "user-agent");
  }

  lemma FoldsDiffer(s: string, t: string, k: nat)
    requires |s| != |t| || (k < |s| && FoldChar(s[k]) != FoldChar(t[k]))
    ensures Fold(s) != Fold(t)
  {
    assert |Fold(s)| == |s| && |Fold(t)| == |t|;
    assert k < |s| == |t| ==> Fold(s)[k] == FoldChar(s[k]) && Fold(t)[k] == FoldChar(t[k]);
  }

  /** No two default names are equal, whatever the case: they differ in length, or at the place `k`. */
  lemma DefaultNamesDiffer(i: nat, j: nat)
    requires i < j < |DEFAULT_HEADER_ORDER|
    ensures Fold(DEFAULT_HEADER_ORDER[i]) != Fold(DEFAULT_HEADER_ORDER[j])
  {
    hide Fold;
    var s, t := DEFAULT_HEADER_ORDER[i], DEFAULT_HEADER_ORDER[j];
    FoldsDiffer(s, t, if |s| == 14 then 10 else if |s| == 15 then 7 else 0);
  }

  class TlsRequest {
    const fold: string -> string
    const defaultOrder: seq<string>
    var headers: map<string, string>
    var cookieStr: string
    /** The header of the request: one value per key, and the order of the keys. */
    var header: map<string, seq<string>>
    /** The cookies in `cookieStr`. */
    ghost var cookies: seq<string>

    ghost predicate Valid()
      reads this
    {
      DefaultsDiffer() && AllPlain(cookies) && cookieStr == Print(cookies)
    }

    constructor ()
      ensures Valid() && headers == map[] && cookieStr == "" && header == map[] && cookies == []
      ensures fold == Fold && defaultOrder == DEFAULT_HEADER_ORDER
    {
      fold, defaultOrder := Fold, DEFAULT_HEADER_ORDER;
      headers, cookieStr, header, cookies := map[], "", map[], [];
      new;
      hide Fold;
      forall i, j | 0 <= i < j < |defaultOrder| ensures fold(defaultOrder[i]) != fold(defaultOrder[j]) {
        DefaultNamesDiffer(i, j);
      }
    }

    ghost predicate DefaultsDiffer() {
      forall i, j :: 0 <= i < j < |defaultOrder| ==> fold(defaultOrder[i]) != fold(defaultOrder[j])
    }

    predicate Matches(h: string, k: string) { fold(h) == fold(k) }

    /** The place of a key in the default list, from `d` on; the list's length when no name there matches it. */
    function RankFrom(h: string, d: nat): (r: nat)
      requires d <= |defaultOrder|
      ensures d <= r <= |defaultOrder| && (r < |defaultOrder| ==> Matches(h, defaultOrder[r]))
      ensures forall k :: d <= k < r ==> !Matches(h, defaultOrder[k])
      decreases |defaultOrder| - d
    {
      if d == |defaultOrder| || Matches(h, defaultOrder[d]) then d else RankFrom(h, d + 1)
    }

    function Rank(h: string): nat { RankFrom(h, 0) }

    lemma RankIs(h: string, d: nat)
      requires DefaultsDiffer() && d < |defaultOrder|
      ensures fold(h) == fold(defaultOrder[d]) <==> Rank(h) == d
    {
      if Matches(h, defaultOrder[d]) {
        var r := Rank(h);
        assert r <= d;
        assert fold(defaultOrder[r]) == fold(defaultOrder[d]);
      }
    }

    /** One stored key for each of the first `upto` default names that has any, in the order of the default list. */
    ghost predicate InDefaultOrder(matched: seq<string>, upto: nat, keys: set<string>) {
      && (forall i :: 0 <= i < |matched| ==> matched[i] in keys && Rank(matched[i]) < upto)
      && (forall i, j :: 0 <= i < j < |matched| ==> Rank(matched[i]) < Rank(matched[j]))
      && (forall h :: h in keys && Rank(h) < upto ==> HasRank(matched, Rank(h)))
    }

    ghost predicate HasRank(matched: seq<string>, r: nat) {
      exists i :: 0 <= i < |matched| && Rank(matched[i]) == r
    }

    /** Some stored key that matches the default name `k`, in whatever order the map is iterated. */
    method FindMatch(k: string) returns (found: bool, headerKey: string)
      ensures found ==> headerKey in headers && Matches(headerKey, k)
      ensures !found ==> forall h :: h in headers ==> !Matches(h, k)
    {
      var rest := headers.Keys;
      while rest != {}
        invariant rest <= headers.Keys
        invariant forall h :: h in headers && h !in rest ==> !Matches(h, k)
        decreases rest
      {
        var h :| h in rest;
        if Matches(h, k) {
          return true, h;
        }
        rest := rest - {h};
      }
      return false, "";
    }

    lemma RankStep(matched: seq<string>, d: nat, keys: set<string>, found: bool, h: string)
      requires DefaultsDiffer() && d < |defaultOrder| && InDefaultOrder(matched, d, keys)
      requires found ==> h in keys && Matches(h, defaultOrder[d])
      requires !found ==> forall k :: k in keys ==> !Matches(k, defaultOrder[d])
      ensures InDefaultOrder(if found then matched + [h] else matched, d + 1, keys)
    {
      hide Rank, RankFrom;
      var next := if found then matched + [h] else matched;
      if found { RankIs(h, d); }
      forall k | k in keys && Rank(k) < d + 1 ensures HasRank(next, Rank(k)) {
        RankIs(k, d);
        if Rank(k) < d {
          var i :| 0 <= i < |matched| && Rank(matched[i]) == Rank(k);
          assert Rank(next[i]) == Rank(k);
        } else {
          assert Rank(next[|matched|]) == d;
        }
      }
    }

    ghost predicate Distinct(order: seq<string>) {
      forall i, j :: 0 <= i < j < |order| ==> order[i] != order[j]
    }

    /** The stored keys in the order to send them: default names first, the others behind, in any order. */
    method OrderKeys() returns (orderedKeys: seq<string>)
      requires DefaultsDiffer()
      ensures Distinct(orderedKeys) && forall h :: h in orderedKeys <==> h in headers
      ensures exists m :: 0 <= m <= |orderedKeys| && InDefaultOrder(orderedKeys[..m], |defaultOrder|, headers.Keys)
    {
      hide HasRank, RankFrom;
      orderedKeys := [];
      var existing: set<string> := {};
      for d := 0 to |defaultOrder|
        invariant InDefaultOrder(orderedKeys, d, headers.Keys)
        invariant forall h :: h in orderedKeys <==> h in existing
      {
        var found, headerKey := FindMatch(defaultOrder[d]);
        RankStep(orderedKeys, d, headers.Keys, found, headerKey);
        if found {
          orderedKeys := orderedKeys + [headerKey];
          existing := existing + {headerKey};
        }
      }
      ghost var matched := orderedKeys;
      orderedKeys := AppendOthers(orderedKeys, existing);
      assert orderedKeys[..|matched|] == matched;
    }

    /** The stored keys that are not in `order` yet go to its end. */
    method AppendOthers(order: seq<string>, existing: set<string>) returns (orderedKeys: seq<string>)
      requires Distinct(order) && forall h :: h in order <==> h in existing
      requires existing <= headers.Keys
      ensures Distinct(orderedKeys) && order <= orderedKeys
      ensures forall h :: h in orderedKeys <==> h in headers
    {
      orderedKeys := order;
      var rest := headers.Keys;
      while rest != {}
        invariant rest <= headers.Keys && order <= orderedKeys && Distinct(orderedKeys)
        invariant forall h :: h in orderedKeys <==> h in headers && (h in existing || h !in rest)
        decreases rest
      {
        var k :| k in rest;
        if k !in existing {
          orderedKeys := orderedKeys + [k];
        }
        rest := rest - {k};
      }
    }

    /**
     * The request's header is made of the stored ones: every key with its value, and an order list that is a
     * duplicate-free permutation of the stored keys with the default names first, in list order.
     */
    ghost predicate Rebuilt()
      reads this
    {
      && (forall k :: k in headers && k != HEADER_ORDER_KEY ==> k in header && header[k] == [headers[k]])
      && (forall k :: k in header && k != HEADER_ORDER_KEY ==> k in headers)
      && HEADER_ORDER_KEY in header
      && var order := header[HEADER_ORDER_KEY];
         && Distinct(order) && (forall h :: h in order <==> h in headers)
         && exists m :: 0 <= m <= |order| && InDefaultOrder(order[..m], |defaultOrder|, headers.Keys)
    }

    /** The request carries the cookies that are set, and no cookie header when there are none. */
    ghost predicate CookieInStep()
      reads this
    {
      if cookies == [] then "Cookie" !in header else "Cookie" in header && header["Cookie"] == [Print(cookies)]
    }

    /** Stores a header and rebuilds the request's header from all stored ones. */
    method SetHeader(key: string, value: string)
      requires Valid()
      modifies this`headers, this`header
      ensures Valid() && headers == old(headers)[key := value] && Rebuilt()
    {
      headers := headers[key := value];
      var orderedKeys := OrderKeys();
      var newHeaders: map<string, seq<string>> := map[];
      for i := 0 to |orderedKeys|
        invariant forall k :: k in newHeaders <==> k in orderedKeys[..i]
        invariant forall k :: k in newHeaders ==> newHeaders[k] == [headers[k]]
      {
        newHeaders := newHeaders[orderedKeys[i] := [headers[orderedKeys[i]]]];
      }
      newHeaders := newHeaders[HEADER_ORDER_KEY := orderedKeys];
      header := newHeaders;
    }

    /** Adds a cookie, or several when there is a separator in it. */
    method SetCookie(key: string, value: string)
      requires Valid()
      modifies this
      ensures Valid() && cookies == old(cookies) + Split(key + "=" + value)
      ensures cookieStr == old(cookieStr) + key + "=" + value + "; "
      ensures IsPlain(key + "=" + value) ==> cookies == old(cookies) + [key + "=" + value]
      ensures headers == old(headers)["Cookie" := cookieStr] && Rebuilt() && CookieInStep()
    {
      hide Print, Split, IsPlain;
      assert "Cookie"[0] != HEADER_ORDER_KEY[0];
      ghost var added := Split(key + "=" + value);
      SplitConcat(key + "=" + value, "");
      if IsPlain(key + "=" + value) { SplitOne(key + "=" + value, ""); }
      PrintConcat(cookies, added);
      PrintOfSplit(key + "=" + value);
      PrintIsEmpty(added);
      assert cookieStr + key + "=" + value + "; " == cookieStr + (key + "=" + value + "; ");
      cookies := cookies + added;
      cookieStr := cookieStr + key + "=" + value + "; ";
      SetHeader("Cookie", cookieStr);
    }

    /**
     * Deletes the cookies that begin with `key=`: every cookie of that name and no other. The stored header goes
     * when no cookie is left, but the header of the request is then left as it was: it is in step exactly when
     * cookies remain, or it had none.
     */
    method DelCookie(key: string)
      requires Valid()
      modifies this
      ensures Valid() && cookies == Filter(old(cookies), key)
      ensures '=' !in key ==> cookies == Without(old(cookies), key)
      ensures headers == if cookies == [] then old(headers) - {"Cookie"} else old(headers)["Cookie" := cookieStr]
      ensures if cookies == [] then header == old(header) else Rebuilt()
      ensures CookieInStep() <==> cookies != [] || "Cookie" !in old(header)
    {
      hide Split, Filter, Join, Print, Without, InDefaultOrder, Distinct;
      assert "Cookie"[0] != HEADER_ORDER_KEY[0];
      DeletingIsFiltering(cookies, key);
      if '=' !in key { FilterIsByName(cookies, key); }
      PrintIsEmpty(Filter(cookies, key));
      var pieces := Split(cookieStr);
      var newCookies: seq<string> := [];
      FilterOne("", key);
      for i := 0 to |pieces|
        invariant cookies == old(cookies) && headers == old(headers) && header == old(header)
        invariant newCookies == Filter(pieces[..i], key)
      {
        FilterConcat(pieces[..i], [pieces[i]], key);
        FilterOne(pieces[i], key);
        assert pieces[..i + 1] == pieces[..i] + [pieces[i]];
        if !HasPrefix(pieces[i], key + "=") {
          newCookies := newCookies + [pieces[i]];
        }
      }
      assert pieces[..|pieces|] == pieces;
      cookieStr := Join(newCookies);
      cookies := Filter(cookies, key);
      if cookieStr != "" {
        SetHeader("Cookie", cookieStr);
      } else {
        headers := headers - {"Cookie"};
      }
    }
  }

  /** Deleting the only cookie leaves it in the header of the request. */
  method LastCookieStays(name: string, value: string) returns (request: TlsRequest)
    requires '=' !in name && IsPlain(name + "=" + value)
    ensures request.cookies == [] && request.cookieStr == "" && "Cookie" !in request.headers
    ensures "Cookie" in request.header && request.header["Cookie"] == [name + "=" + value + "; "]
  {
    hide IsPlain, IsNamed, Print, Without, Filter;
    request := new TlsRequest();
    OneCookie(name, value);
    request.SetCookie(name, value);
    request.DelCookie(name);
  }

  lemma OneCookie(name: string, value: string)
    ensures var cookie := name + "=" + value;
      && [] + [cookie] == [cookie] && Print([cookie]) == cookie + "; "
      && ('=' !in name ==> Without([cookie], name) == [])
  {
    var cookie := name + "=" + value;
    assert [cookie][1..] == [];
    assert cookie + "; " + "" == cookie + "; ";
    if '=' !in name {
      PrefixIsName(cookie, name);
      assert cookie[..|name + "="|] == name + "=";
    }
  }
}
