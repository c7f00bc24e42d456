/** The JDWP option list: parsing "key=value" options, joining them again, and the argument string
    that is built for the agent. */
module JdwpOptions {
  import opened Wrappers
  import opened Decimal

  type Pair = (string, string)

  /** `keys` has the keys in order of first insertion. */
  datatype Args = Args(keys: seq<string>, store: map<string, string>)

  const EMPTY := Args([], map[])

  // ---- Text ----

  predicate IsSpace(c: char) {
    c in {' ', '\t', '\n', '\r', '\U{0B}', '\U{0C}'}
  }

  function Strip(s: string): (r: string)
    ensures forall c <- r :: c in s && !IsSpace(c)
    ensures (forall c <- s :: !IsSpace(c)) ==> r == s
  {
    if s == "" then "" else (if IsSpace(s[0]) then "" else [s[0]]) + Strip(s[1..])
  }

  lemma SpacesExactly(c: char)
    ensures IsSpace(c) <==> c == ' ' || 9 <= c as int <= 13
  {
  }

  lemma StripStep(s: string)
    ensures s == "" ==> Strip(s) == ""
    ensures s != "" ==> Strip(s) == (if IsSpace(s[0]) then "" else [s[0]]) + Strip(s[1..])
  {
  }

  lemma StripOne(c: char)
    ensures Strip([c]) == if IsSpace(c) then "" else [c]
  {
    hide IsSpace;
    assert [c][1..] == "";
  }

  /** Stripping goes character by character and keeps the order. */
  lemma {:induction false} StripConcat(a: string, b: string)
    ensures Strip(a + b) == Strip(a) + Strip(b)
  {
    hide IsSpace, Strip;
    StripStep(a);
    if a == "" {
      assert a + b == b;
    } else {
      StripConcat(a[1..], b);
      assert (a + b)[1..] == a[1..] + b;
      StripStep(a + b);
    }
  }

  /** A blank, tab or line break is dropped wherever it is, and every other character stays in its
      place among the others. */
  lemma StripExactly(a: string, c: char, b: string)
    ensures Strip(a + [c] + b) == if c == ' ' || 9 <= c as int <= 13 then Strip(a + b) else Strip(a) + [c] + Strip(b)
  {
    hide IsSpace, Strip;
    SpacesExactly(c);
    StripOne(c);
    StripConcat(a + [c], b);
    StripConcat(a, [c]);
    StripConcat(a, b);
  }

  /** First position of `c`, or the length. */
  function Find(s: string, c: char): (i: nat)
    ensures i <= |s| && (i < |s| ==> s[i] == c) && forall j :: 0 <= j < i ==> s[j] != c
  {
    if s == "" || s[0] == c then 0 else Find(s[1..], c) + 1
  }

  function Split(s: string): (ts: seq<string>)
    ensures |ts| > 0 && forall t <- ts :: ',' !in t
    decreases |s|
  {
    var i := Find(s, ',');
    if i == |s| then [s] else [s[..i]] + Split(s[i + 1..])
  }

  /** Text that comes back unchanged from a round trip. */
  predicate CleanPair(p: Pair) {
    && p.0 != "" && (forall c <- p.0 :: c != ',' && c != '=' && !IsSpace(c))
    && p.1 != "" && p.1[|p.1| - 1] != '=' && (forall c <- p.1 :: c != ',' && !IsSpace(c))
  }

  /** The pair in a token, unless the token has no '=' or has one at either end. */
  function Parsed(token: string): (r: Option<Pair>)
    ensures r.Some? && ',' !in token ==> CleanPair(r.value)
  {
    var w := Strip(token);
    var pos := Find(w, '=');
    if pos == |w| || w[|w| - 1] == '=' || w[0] == '=' then None
    else assert w[pos + 1..] == [] ==> pos + 1 == |w|; Some((w[..pos], w[pos + 1..]))
  }

  function Pairs(tokens: seq<string>): (ps: seq<Pair>)
    ensures (forall t <- tokens :: ',' !in t) ==> forall p <- ps :: CleanPair(p)
  {
    if tokens == [] then [] else
      var p := Parsed(tokens[|tokens| - 1]);
      assert tokens == tokens[..|tokens| - 1] + [tokens[|tokens| - 1]];
      Pairs(tokens[..|tokens| - 1]) + if p.Some? then [p.value] else []
  }

  // ---- The store ----

  function Inserted(a: Args, key: string, value: string): Args {
    Args(if key in a.store then a.keys else a.keys + [key], a.store[key := value])
  }

  function PutAll(a: Args, ps: seq<Pair>): Args {
    if ps == [] then a else
      var p := ps[|ps| - 1];
      Inserted(PutAll(a, ps[..|ps| - 1]), p.0, p.1)
  }

  function Parse(opts: string): Args { PutAll(EMPTY, Pairs(Split(opts))) }

  ghost predicate Valid(a: Args) {
    && (forall k :: k in a.keys <==> k in a.store)
    && forall i, j :: 0 <= i < j < |a.keys| ==> a.keys[i] != a.keys[j]
  }

  ghost predicate Clean(a: Args)
    requires Valid(a)
  {
    forall k <- a.keys :: CleanPair((k, a.store[k]))
  }

  lemma PutKeeps(a: Args, key: string, value: string)
    requires Valid(a)
    ensures Valid(Inserted(a, key, value)) && a.keys <= Inserted(a, key, value).keys
    ensures Clean(a) && CleanPair((key, value)) ==> Clean(Inserted(a, key, value))
  {
  }

  lemma {:induction false} PutAllKeeps(a: Args, ps: seq<Pair>)
    requires Valid(a)
    ensures Valid(PutAll(a, ps)) && a.keys <= PutAll(a, ps).keys
    ensures Clean(a) && (forall p <- ps :: CleanPair(p)) ==> Clean(PutAll(a, ps))
  {
    hide CleanPair, Valid, Clean;
    if ps != [] {
      var p := ps[|ps| - 1];
      PutAllKeeps(a, ps[..|ps| - 1]);
      PutKeeps(PutAll(a, ps[..|ps| - 1]), p.0, p.1);
    }
  }

  /** Parsing gives each key once, and text that survives joining. */
  lemma ParseIsClean(opts: string)
    ensures Valid(Parse(opts)) && Clean(Parse(opts))
  {
    PutAllKeeps(EMPTY, Pairs(Split(opts)));
  }

  /** Index of the first and of the last pair with a key. */
  function First(ps: seq<Pair>, k: string): (i: nat)
    ensures i <= |ps| && (i < |ps| ==> ps[i].0 == k) && forall j :: 0 <= j < i ==> ps[j].0 != k
  {
    if ps == [] || ps[0].0 == k then 0 else First(ps[1..], k) + 1
  }

  ghost predicate LastAt(ps: seq<Pair>, k: string, i: nat) {
    i < |ps| && ps[i].0 == k && forall j :: i < j < |ps| ==> ps[j].0 != k
  }

  /** The last value given for a key wins. */
  lemma {:induction false} LastValueWins(ps: seq<Pair>, k: string, i: nat)
    requires LastAt(ps, k, i)
    ensures k in PutAll(EMPTY, ps).store && PutAll(EMPTY, ps).store[k] == ps[i].1
  {
    if i < |ps| - 1 {
      assert ps[|ps| - 1].0 != k;
      LastValueWins(ps[..|ps| - 1], k, i);
    }
  }

  ghost predicate OrderedByFirst(ps: seq<Pair>, a: Args) {
    && (forall k :: k in a.store <==> First(ps, k) < |ps|)
    && forall x, y :: 0 <= x < y < |a.keys| ==> First(ps, a.keys[x]) < First(ps, a.keys[y])
  }

  lemma FirstSnoc(init: seq<Pair>, last: Pair, k: string)
    ensures First(init + [last], k) == if First(init, k) < |init| then First(init, k) else if last.0 == k then |init| else |init| + 1
  {
    var f := First(init + [last], k);
    if First(init, k) < |init| {
      assert (init + [last])[First(init, k)].0 == k;
      assert f < |init| ==> init[f].0 == k;
    } else {
      assert forall j :: 0 <= j < |init| ==> (init + [last])[j].0 != k;
      assert (init + [last])[|init|] == last;
    }
  }

  lemma PutKeepsOrder(init: seq<Pair>, last: Pair, a: Args)
    requires Valid(a) && OrderedByFirst(init, a)
    ensures OrderedByFirst(init + [last], Inserted(a, last.0, last.1))
  {
    hide First;
    forall k ensures First(init + [last], k) == if First(init, k) < |init| then First(init, k) else if last.0 == k then |init| else |init| + 1 {
      FirstSnoc(init, last, k);
    }
  }

  /** Keys are listed once each, in the order in which they were first given. */
  lemma {:induction false} FirstPositionWins(ps: seq<Pair>)
    ensures Valid(PutAll(EMPTY, ps)) && OrderedByFirst(ps, PutAll(EMPTY, ps))
  {
    hide CleanPair, First;
    PutAllKeeps(EMPTY, ps);
    if ps == [] {
    } else {
      var init, last := ps[..|ps| - 1], ps[|ps| - 1];
      FirstPositionWins(init);
      PutKeepsOrder(init, last, PutAll(EMPTY, init));
      assert ps == init + [last];
    }
  }

  // ---- Joining ----

  function Token(a: Args, key: string): string
    requires key in a.store
  {
    key + "=" + a.store[key]
  }

  /** The tokens of the first `n` keys. */
  ghost function Tokens(a: Args, n: nat): (ts: seq<string>)
    requires Valid(a) && n <= |a.keys|
    ensures |ts| == n && forall i :: 0 <= i < n ==> ts[i] == Token(a, a.keys[i])
  {
    if n == 0 then [] else Tokens(a, n - 1) + [Token(a, a.keys[n - 1])]
  }

  /** Each token followed by a comma. */
  ghost function Listed(ts: seq<string>): string {
    if ts == [] then "" else Listed(ts[..|ts| - 1]) + ts[|ts| - 1] + ","
  }

  ghost function Joined(a: Args): string
    requires Valid(a)
  {
    var s := Listed(Tokens(a, |a.keys|));
    if |s| >= 2 then s[..|s| - 1] else s
  }

  lemma {:induction false} ListedCons(ts: seq<string>)
    requires ts != []
    ensures Listed(ts) == ts[0] + "," + Listed(ts[1..])
  {
    if |ts| > 1 {
      ListedCons(ts[..|ts| - 1]);
      assert ts[..|ts| - 1][1..] == ts[1..][..|ts| - 2];
    }
  }

  lemma ListedStep(ts: seq<string>, t: string)
    ensures Listed(ts + [t]) == Listed(ts) + t + ","
  {
    assert (ts + [t])[..|ts|] == ts;
  }

  lemma ListedNone()
    ensures Listed([]) == ""
  {
  }

  lemma FindFirst(a: string, c: char, b: string)
    requires c !in a
    ensures Find(a + [c] + b, c) == |a|
  {
    hide Find;
    assert (a + [c] + b)[|a|] == c;
    assert forall j :: 0 <= j < |a| ==> (a + [c] + b)[j] == a[j];
  }

  lemma NotFound(a: string, c: char)
    requires c !in a
    ensures Find(a, c) == |a|
  {
    hide Find;
  }

  /** Splitting at commas undoes listing. */
  lemma {:induction false} SplitUndoesListed(ts: seq<string>)
    requires ts != [] && forall t <- ts :: ',' !in t
    ensures Listed(ts) != "" && Split(Listed(ts)[..|Listed(ts)| - 1]) == ts
  {
    hide Find, Listed;
    ListedCons(ts);
    ListedNone();
    var s := Listed(ts);
    if |ts| == 1 {
      assert ts[1..] == [];
      assert s[..|s| - 1] == ts[0];
      NotFound(ts[0], ',');
      assert Split(ts[0]) == [ts[0]];
    } else {
      SplitUndoesListed(ts[1..]);
      var rest := Listed(ts[1..]);
      assert s[..|s| - 1] == ts[0] + [','] + rest[..|rest| - 1];
      FindFirst(ts[0], ',', rest[..|rest| - 1]);
      assert s[..|s| - 1][|ts[0]| + 1..] == rest[..|rest| - 1];
      assert s[..|s| - 1][..|ts[0]|] == ts[0];
    }
  }

  /** A clean pair comes back from its token. */
  lemma TokenRoundTrip(p: Pair)
    requires CleanPair(p)
    ensures Parsed(p.0 + "=" + p.1) == Some(p) && ',' !in p.0 + "=" + p.1
  {
    var t := p.0 + "=" + p.1;
    assert Strip(t) == t;
    FindFirst(p.0, '=', p.1);
    assert t[..|p.0|] == p.0 && t[|p.0| + 1..] == p.1;
    assert t[|t| - 1] == p.1[|p.1| - 1] && t[0] == p.0[0];
  }

  /** The pairs of the first `n` keys. */
  ghost function PairsOf(a: Args, n: nat): seq<Pair>
    requires Valid(a) && n <= |a.keys|
  {
    if n == 0 then [] else PairsOf(a, n - 1) + [(a.keys[n - 1], a.store[a.keys[n - 1]])]
  }

  lemma PairsStep(ts: seq<string>, t: string)
    ensures Pairs(ts + [t]) == Pairs(ts) + if Parsed(t).Some? then [Parsed(t).value] else []
  {
    hide Parsed;
    assert (ts + [t])[..|ts|] == ts;
  }

  lemma NothingParsed()
    ensures Pairs(Split("")) == [] && Pairs([]) == []
  {
    assert Find("", ',') == 0;
  }

  lemma {:induction false} PairsOfTokens(a: Args, n: nat)
    requires Valid(a) && Clean(a) && n <= |a.keys|
    ensures Pairs(Tokens(a, n)) == PairsOf(a, n)
  {
    hide Parsed, CleanPair, Pairs;
    if n == 0 {
      NothingParsed();
    } else {
      PairsOfTokens(a, n - 1);
      TokenRoundTrip((a.keys[n - 1], a.store[a.keys[n - 1]]));
      PairsStep(Tokens(a, n - 1), Token(a, a.keys[n - 1]));
    }
  }

  lemma PairsOfNone(a: Args)
    requires Valid(a)
    ensures PairsOf(a, 0) == []
  {
  }

  lemma PairsOfSnoc(a: Args, n: nat)
    requires Valid(a) && 0 < n <= |a.keys|
    ensures PairsOf(a, n) == PairsOf(a, n - 1) + [(a.keys[n - 1], a.store[a.keys[n - 1]])]
  {
  }

  lemma PutAllSnoc(a: Args, ps: seq<Pair>, p: Pair)
    ensures PutAll(a, ps + [p]) == Inserted(PutAll(a, ps), p.0, p.1) && PutAll(a, []) == a
  {
    assert (ps + [p])[..|ps|] == ps;
  }

  lemma {:induction false} PutBack(a: Args, n: nat)
    requires Valid(a) && n <= |a.keys|
    ensures var b := PutAll(EMPTY, PairsOf(a, n));
      && b.keys == a.keys[..n] && (forall k :: k in b.store <==> k in a.keys[..n])
      && forall k <- b.store :: k in a.store && b.store[k] == a.store[k]
  {
    hide PutAll, PairsOf;
    PutAllSnoc(EMPTY, [], ("", ""));
    if n == 0 {
      assert PairsOf(a, 0) == [] by { PairsOfNone(a); }
    } else {
      PutBack(a, n - 1);
      PairsOfSnoc(a, n);
      var b, k := PutAll(EMPTY, PairsOf(a, n - 1)), a.keys[n - 1];
      PutAllSnoc(EMPTY, PairsOf(a, n - 1), (k, a.store[k]));
      assert a.keys[..n] == a.keys[..n - 1] + [k];
      assert k !in b.store;
    }
  }

  /** Splitting the joined text gives the tokens back. */
  lemma SplitOfJoin(a: Args)
    requires Valid(a) && Clean(a) && |a.keys| > 0
    ensures Split(Joined(a)) == Tokens(a, |a.keys|)
  {
    hide Split, Tokens, Listed, CleanPair;
    var ts := Tokens(a, |a.keys|);
    forall t <- ts ensures ',' !in t {
      var i :| 0 <= i < |ts| && ts[i] == t;
      TokenRoundTrip((a.keys[i], a.store[a.keys[i]]));
    }
    SplitUndoesListed(ts);
    ListedCons(ts);
  }

  lemma CleanRoundTrip(a: Args)
    requires Valid(a) && Clean(a)
    ensures Parse(Joined(a)) == a
  {
    hide Pairs, PutAll, Split, Tokens, Listed, CleanPair, PairsOf;
    var n := |a.keys|;
    PairsOfTokens(a, n);
    PutBack(a, n);
    assert a.keys[..n] == a.keys;
    assert PutAll(EMPTY, PairsOf(a, n)) == a;
    if n == 0 {
      ListedNone();
      NothingParsed();
    } else {
      SplitOfJoin(a);
    }
  }

  /** Joining and parsing again gives the same options exactly when their text is clean. */
  lemma RoundTripExactly(a: Args)
    requires Valid(a)
    ensures Parse(Joined(a)) == a <==> Clean(a)
  {
    ParseIsClean(Joined(a));
    if Clean(a) {
      CleanRoundTrip(a);
    }
  }

  /** For every option string, parsing the joined form changes nothing, order included. */
  lemma ParseJoinParse(opts: string)
    ensures Valid(Parse(opts)) && Parse(Joined(Parse(opts))) == Parse(opts)
  {
    ParseIsClean(opts);
    CleanRoundTrip(Parse(opts));
  }

  // ---- The class ----

  lemma SplitStep(s: string)
    ensures var i := Find(s, ','); Split(s) == [s[..i]] + if i == |s| then [] else Split(s[i + 1..])
  {
    hide Find;
    assert s[..|s|] == s;
  }

  function WithToken(a: Args, token: string): Args {
    match Parsed(token)
    case None => a
    case Some(p) => Inserted(a, p.0, p.1)
  }

  lemma PutAllStep(ts: seq<string>, t: string)
    ensures PutAll(EMPTY, Pairs(ts + [t])) == WithToken(PutAll(EMPTY, Pairs(ts)), t)
    ensures PutAll(EMPTY, Pairs([])) == EMPTY
  {
    hide Parsed, Pairs, PutAll;
    NothingParsed();
    PairsStep(ts, t);
    PutAllSnoc(EMPTY, Pairs(ts), if Parsed(t).Some? then Parsed(t).value else ("", ""));
    assert Pairs(ts) + [] == Pairs(ts);
  }

  /** Token after token, as the stream delivers them. */
  ghost function ParseFrom(a: Args, rest: string): Args
    decreases |rest|
  {
    var i := Find(rest, ',');
    var b := WithToken(a, rest[..i]);
    if i == |rest| then b else ParseFrom(b, rest[i + 1..])
  }

  lemma {:induction false} ParseFromIs(done: seq<string>, rest: string)
    ensures ParseFrom(PutAll(EMPTY, Pairs(done)), rest) == PutAll(EMPTY, Pairs(done + Split(rest)))
    decreases |rest|
  {
    hide Pairs, PutAll, Find, WithToken;
    var i := Find(rest, ',');
    PutAllStep(done, rest[..i]);
    SplitStep(rest);
    if i < |rest| {
      ParseFromIs(done + [rest[..i]], rest[i + 1..]);
      assert done + [rest[..i]] + Split(rest[i + 1..]) == done + Split(rest);
    } else {
      assert done + [rest[..i]] == done + Split(rest);
    }
  }

  lemma ParseFromStart(opts: string)
    ensures ParseFrom(EMPTY, opts) == Parse(opts)
  {
    ParseFromIs([], opts);
    PutAllStep([], "");
    assert [] + Split(opts) == Split(opts);
  }

  lemma StripKeepsNoComma(s: string)
    requires ',' !in s
    ensures ',' !in Strip(s)
  {
  }

  lemma StripFirstToken(head: string, rest: string)
    requires ',' !in head
    ensures var s := Strip(head + [','] + rest);
      Find(s, ',') == |Strip(head)| && |Strip(head)| < |s| && s[..|Strip(head)|] == Strip(head) && s[|Strip(head)| + 1..] == Strip(rest)
  {
    hide IsSpace, Find, Strip;
    StripKeepsNoComma(head);
    StripExactly(head, ',', rest);
    FindFirst(Strip(head), ',', Strip(rest));
  }

  ghost function Stripped(ts: seq<string>): (r: seq<string>)
    ensures |r| == |ts| && forall i :: 0 <= i < |ts| ==> r[i] == Strip(ts[i])
  {
    seq(|ts|, i requires 0 <= i < |ts| => Strip(ts[i]))
  }

  lemma {:induction false} StripSplits(s: string)
    ensures Split(Strip(s)) == Stripped(Split(s))
    decreases |s|
  {
    hide IsSpace, Find, Strip, Split;
    var i := Find(s, ',');
    SplitStep(s);
    SplitStep(Strip(s));
    var head := s[..i];
    if i == |s| {
      assert s == head;
      StripKeepsNoComma(head);
      NotFound(Strip(s), ',');
      assert Strip(s)[..|Strip(s)|] == Strip(s);
    } else {
      var rest := s[i + 1..];
      StripSplits(rest);
      assert s == head + [','] + rest;
      StripFirstToken(head, rest);
      assert Stripped([head] + Split(rest)) == [Strip(head)] + Stripped(Split(rest));
    }
  }

  lemma {:induction false} StrippedPairs(ts: seq<string>)
    ensures Pairs(Stripped(ts)) == Pairs(ts)
  {
    hide Strip;
    if ts != [] {
      var init, t := ts[..|ts| - 1], ts[|ts| - 1];
      StrippedPairs(init);
      assert Stripped(ts)[..|ts| - 1] == Stripped(init);
      assert Strip(Strip(t)) == Strip(t);
    }
  }

  /** White space anywhere in the options makes no difference. */
  lemma WhiteSpaceIsIgnored(opts: string)
    ensures Parse(Strip(opts)) == Parse(opts)
  {
    hide Pairs, Split, Strip, PutAll;
    StripSplits(opts);
    StrippedPairs(Split(opts));
  }

  class JdwpArgs {
    var keys: seq<string>
    var store: map<string, string>

    function Contents(): Args
      reads this
    {
      Args(keys, store)
    }

    constructor (opts: string)
      ensures Contents() == Parse(opts)
    {
      hide Parse, WithToken, Find;
      keys, store := [], map[];
      new;
      ParseFromStart(opts);
      var rest, eof := opts, false;
      while !eof
        invariant Parse(opts) == if eof then Contents() else ParseFrom(Contents(), rest)
        decreases !eof, |rest|
      {
        var comma := Find(rest, ',');
        PutToken(rest[..comma]);
        if comma == |rest| {
          eof := true;
        } else {
          rest := rest[comma + 1..];
        }
      }
    }

    method PutToken(token: string)
      modifies this
      ensures Contents() == WithToken(old(Contents()), token)
    {
      var w := Strip(token);
      var pos := Find(w, '=');
      if pos == |w| || w[|w| - 1] == '=' || w[0] == '=' {
        return;
      }
      Put(w[..pos], w[pos + 1..]);
    }

    method Put(key: string, value: string)
      modifies this
      ensures Contents() == Inserted(old(Contents()), key, value)
    {
      if key !in store {
        keys := keys + [key];
      }
      store := store[key := value];
    }

    method Join() returns (opts: string)
      requires Valid(Contents())
      ensures opts == Joined(Contents())
    {
      hide Listed;
      opts := "";
      ListedNone();
      for i := 0 to |keys|
        invariant opts == Listed(Tokens(Contents(), i))
      {
        assert keys[i] in store;
        ListedStep(Tokens(Contents(), i), Token(Contents(), keys[i]));
        opts := opts + keys[i] + "=" + store[keys[i]] + ",";
      }
      if |opts| >= 2 {
        opts := opts[..|opts| - 1];
      }
    }
  }

  lemma JoinedTwo(a: Args)
    requires Valid(a) && |a.keys| == 2
    ensures Joined(a) == a.keys[0] + "=" + a.store[a.keys[0]] + "," + a.keys[1] + "=" + a.store[a.keys[1]]
  {
    var ts := Tokens(a, 2);
    var x, y := Token(a, a.keys[0]), Token(a, a.keys[1]);
    assert ts == [x, y];
    assert Listed([x]) == Listed([]) + x + "," by { assert [x][..0] == []; }
    assert Listed(ts) == Listed([x]) + y + "," by { assert ts[..1] == [x]; }
    assert Listed(ts) == x + "," + y + ",";
  }

  /** How options are written: keys and values with '=' between them, and commas between the pairs. */
  lemma WrittenOptions(k: string, v: string, k': string, v': string)
    requires CleanPair((k, v)) && CleanPair((k', v')) && k != k'
    ensures var a := Args([k, k'], map[k := v, k' := v']);
      && Parse(k + "=" + v + "," + k' + "=" + v') == a
      && Valid(a) && Joined(a) == k + "=" + v + "," + k' + "=" + v'
  {
    var a := Args([k, k'], map[k := v, k' := v']);
    assert a.keys[0] == k && a.keys[1] == k';
    JoinedTwo(a);
    RoundTripExactly(a);
  }

  // ---- The argument of the agent ----

  function ToString(n: int): (s: string)
    ensures s != "" && forall c <- s :: c == '-' || IsDigit(c)
  {
    if n < 0 then "-" + Digits(-n) else Digits(n)
  }

  /** The number in decimal, with a minus sign in front if it is negative. */
  lemma NumberText(n: int)
    ensures n >= 0 ==> (forall c <- ToString(n) :: IsDigit(c)) && Value(ToString(n)) == n
    ensures n < 0 ==> ToString(n)[0] == '-' && (forall c <- ToString(n)[1..] :: IsDigit(c)) && Value(ToString(n)[1..]) == -n
  {
    ValueOfDigits(if n < 0 then -n else n);
    if n < 0 {
      assert ToString(n)[1..] == Digits(-n);
    }
  }

  const LOGFILE := "logfile"

  /** What is forced on the options, in this order. */
  function Forced(ddmActive: bool, address: int): seq<Pair> {
    [("server", "y"), ("suspend", "n"), ("ddm_already_active", if ddmActive then "y" else "n"),
     ("transport", "dt_fd_forward"), ("address", ToString(address))]
  }

  predicate Plain(c: char) { 'a' <= c <= 'z' || '0' <= c <= '9' || c == '_' || c == '-' }

  lemma PlainIsClean(key: string, value: string)
    requires key != "" && value != "" && (forall c <- key :: Plain(c)) && (forall c <- value :: Plain(c))
    ensures CleanPair((key, value))
  {
    assert Plain(value[|value| - 1]);
  }

  lemma ForcedIsClean(ddmActive: bool, address: int)
    ensures forall p <- Forced(ddmActive, address) :: CleanPair(p)
  {
    hide CleanPair;
    PlainIsClean("server", "y");
    PlainIsClean("suspend", "n");
    PlainIsClean("ddm_already_active", if ddmActive then "y" else "n");
    PlainIsClean("transport", "dt_fd_forward");
    PlainIsClean("address", ToString(address));
  }

  /** `package` is None on builds that leave the log file alone, and the name of the process's
      package elsewhere. */
  predicate FixesLogfile(a: Args, package: Option<string>) {
    && package.Some? && package.value != ""
    && LOGFILE in a.store && a.store[LOGFILE] != "" && a.store[LOGFILE][0] != '/'
  }

  function Fixed(a: Args, package: Option<string>): Args {
    if FixesLogfile(a, package) then Inserted(a, LOGFILE, "/data/data/" + package.value + "/" + a.store[LOGFILE]) else a
  }

  function AgentArgs(opts: string, ddmActive: bool, address: int, package: Option<string>): Args {
    Fixed(PutAll(Parse(opts), Forced(ddmActive, address)), package)
  }

  method FixLogfile(parameters: JdwpArgs, package: Option<string>)
    requires LOGFILE in parameters.store ==> parameters.store[LOGFILE] != ""
    modifies parameters
    ensures parameters.Contents() == Fixed(old(parameters.Contents()), package)
  {
    if package.None? || LOGFILE !in parameters.store {
      return;
    }
    var logfile := parameters.store[LOGFILE];
    if logfile[0] == '/' {
      return;
    }
    if package.value == "" {
      return;
    }
    parameters.Put(LOGFILE, "/data/data/" + package.value + "/" + logfile);
  }

  lemma FivePuts(a: Args, ddmActive: bool, address: int)
    ensures var a1 := Inserted(Inserted(a, "server", "y"), "suspend", "n");
      var a2 := Inserted(a1, "ddm_already_active", if ddmActive then "y" else "n");
      PutAll(a, Forced(ddmActive, address)) == Inserted(Inserted(a2, "transport", "dt_fd_forward"), "address", ToString(address))
  {
    hide Inserted, ToString;
    var f := Forced(ddmActive, address);
    assert f[..4][..3] == f[..3] && f[..3][..2] == f[..2] && f[..2][..1] == f[..1] && f[..1][..0] == [];
    assert PutAll(a, f[..1]) == Inserted(a, "server", "y");
    assert PutAll(a, f[..2]) == Inserted(PutAll(a, f[..1]), "suspend", "n");
    assert PutAll(a, f[..3]) == Inserted(PutAll(a, f[..2]), f[2].0, f[2].1);
    assert PutAll(a, f[..4]) == Inserted(PutAll(a, f[..3]), f[3].0, f[3].1);
  }

  lemma ForcedIsPut(opts: string, ddmActive: bool, address: int)
    ensures var a := PutAll(Parse(opts), Forced(ddmActive, address)); Valid(a) && Clean(a) && (LOGFILE in a.store ==> a.store[LOGFILE] != "")
  {
    hide Parse, Forced, PutAll;
    ParseIsClean(opts);
    ForcedIsClean(ddmActive, address);
    PutAllKeeps(Parse(opts), Forced(ddmActive, address));
  }

  lemma AgentArgsValid(opts: string, ddmActive: bool, address: int, package: Option<string>)
    ensures Valid(AgentArgs(opts, ddmActive, address, package))
  {
    hide Parse, Forced, PutAll, Clean;
    ForcedIsPut(opts, ddmActive, address);
  }

  method MakeAgentArg(opts: string, agentName: string, ddmActive: bool, address: int, package: Option<string>) returns (arg: string)
    ensures Valid(AgentArgs(opts, ddmActive, address, package))
    ensures arg == agentName + "=" + Joined(AgentArgs(opts, ddmActive, address, package))
  {
    hide Parse, ToString, Valid, Clean;
    var parameters := new JdwpArgs(opts);
    parameters.Put("server", "y");
    parameters.Put("suspend", "n");
    var ddmAlreadyActive := "n";
    if ddmActive {
      ddmAlreadyActive := "y";
    }
    parameters.Put("ddm_already_active", ddmAlreadyActive);
    parameters.Put("transport", "dt_fd_forward");
    parameters.Put("address", ToString(address));
    FivePuts(Parse(opts), ddmActive, address);
    ForcedIsPut(opts, ddmActive, address);
    FixLogfile(parameters, package);
    AgentArgsValid(opts, ddmActive, address, package);
    var joined := parameters.Join();
    arg := agentName + "=" + joined;
  }

  // ---- What the agent reads ----

  lemma FixedIsClean(b: Args, package: Option<string>)
    requires Valid(b) && Clean(b) && FixesLogfile(b, package)
    ensures Valid(Fixed(b, package))
    ensures Clean(Fixed(b, package)) <==> forall c <- package.value :: c != ',' && !IsSpace(c)
  {
    var p, v := package.value, b.store[LOGFILE];
    var path := "/data/data/" + p + "/" + v;
    assert forall c <- p :: c in path;
    assert path[|path| - 1] == v[|v| - 1];
    assert CleanPair((LOGFILE, v));
    assert CleanPair((LOGFILE, path)) <==> forall c <- p :: c != ',' && !IsSpace(c);
    assert LOGFILE in Fixed(b, package).keys;
  }

  /** The agent reads back exactly what was put together, unless the log file was completed with a
      package name that has a comma or a space. */
  lemma AgentReadsBack(opts: string, ddmActive: bool, address: int, package: Option<string>)
    ensures var a := AgentArgs(opts, ddmActive, address, package);
      Valid(a) &&
      (Parse(Joined(a)) == a <==>
        !FixesLogfile(PutAll(Parse(opts), Forced(ddmActive, address)), package) || (forall c <- package.value :: c != ',' && !IsSpace(c)))
  {
    hide Parse, Forced, PutAll;
    var b := PutAll(Parse(opts), Forced(ddmActive, address));
    ForcedIsPut(opts, ddmActive, address);
    AgentArgsValid(opts, ddmActive, address, package);
    var a := AgentArgs(opts, ddmActive, address, package);
    RoundTripExactly(a);
    if FixesLogfile(b, package) {
      FixedIsClean(b, package);
    }
  }

  function IndexOf(keys: seq<string>, k: string): (i: nat)
    ensures i <= |keys| && (i < |keys| ==> keys[i] == k) && forall j :: 0 <= j < i ==> keys[j] != k
  {
    if keys == [] || keys[0] == k then 0 else IndexOf(keys[1..], k) + 1
  }

  /** `x` is listed before `y`. */
  predicate Before(keys: seq<string>, x: string, y: string) { IndexOf(keys, x) < IndexOf(keys, y) }

  lemma {:induction false} PutAllMeaning(a: Args, ps: seq<Pair>)
    requires forall i, j :: 0 <= i < j < |ps| ==> ps[i].0 != ps[j].0
    ensures a.keys <= PutAll(a, ps).keys
    ensures forall p <- ps :: p.0 in PutAll(a, ps).store && PutAll(a, ps).store[p.0] == p.1
    ensures forall k <- a.store :: k in PutAll(a, ps).store && (PutAll(a, ps).store[k] == a.store[k] || exists p <- ps :: p.0 == k)
    ensures forall k <- PutAll(a, ps).store :: k in a.store || exists p <- ps :: p.0 == k
  {
    if ps != [] {
      var init, last := ps[..|ps| - 1], ps[|ps| - 1];
      assert ps == init + [last];
      PutAllMeaning(a, init);
    }
  }

  lemma ForcedIsDistinct(ddmActive: bool, address: int)
    ensures var f := Forced(ddmActive, address);
      (forall i, j :: 0 <= i < j < |f| ==> f[i].0 != f[j].0) && forall p <- f :: p.0 != LOGFILE
  {
    hide ToString;
    assert |"server"| == 6 && |"suspend"| == 7 && |"ddm_already_active"| == 18 && |"transport"| == 9 && |"address"| == 7 && |LOGFILE| == 7;
    assert "suspend"[0] != "address"[0] && "address"[0] != LOGFILE[0] && LOGFILE[0] != "suspend"[0];
  }

  /** The forced values win, every other option keeps its value, and the user's keys keep their
      positions in front of the added ones. */
  lemma AgentArgsMeaning(opts: string, ddmActive: bool, address: int, package: Option<string>)
    ensures var a := AgentArgs(opts, ddmActive, address, package);
      && Parse(opts).keys <= a.keys
      && (forall p <- Forced(ddmActive, address) :: p.0 in a.store && a.store[p.0] == p.1)
      && (forall k <- Parse(opts).store :: k in a.store && (k == LOGFILE || a.store[k] == Parse(opts).store[k] || exists p <- Forced(ddmActive, address) :: p.0 == k))
      && (forall k <- a.store :: k in Parse(opts).store || exists p <- Forced(ddmActive, address) :: p.0 == k)
  {
    hide Parse, Forced, PutAll;
    ForcedIsDistinct(ddmActive, address);
    PutAllMeaning(Parse(opts), Forced(ddmActive, address));
  }

  /** What the agent is always told. */
  lemma ForcedValues(opts: string, ddmActive: bool, address: int, package: Option<string>)
    ensures var t := AgentArgs(opts, ddmActive, address, package).store;
      && "server" in t && t["server"] == "y" && "suspend" in t && t["suspend"] == "n"
      && "ddm_already_active" in t && (t["ddm_already_active"] == "y" <==> ddmActive)
      && "transport" in t && t["transport"] == "dt_fd_forward" && "address" in t && t["address"] == ToString(address)
  {
    hide AgentArgs, ToString, Parse;
    AgentArgsMeaning(opts, ddmActive, address, package);
    var f := Forced(ddmActive, address);
    assert f[0] in f && f[1] in f && f[2] in f && f[3] in f && f[4] in f;
  }

  /** With a package name the log file ends up absolute: as given if it was, or else with the given
      name at the end of a path in the package's own directory. Without one it is as given. */
  lemma LogfileIsAbsolute(opts: string, ddmActive: bool, address: int, package: Option<string>)
    requires LOGFILE in Parse(opts).store
    ensures var a, given := AgentArgs(opts, ddmActive, address, package), Parse(opts).store[LOGFILE];
      && LOGFILE in a.store && given != ""
      && (package.Some? && package.value != "" ==> a.store[LOGFILE] != "" && a.store[LOGFILE][0] == '/')
      && (given[0] == '/' || package.None? || package.value == "" ==> a.store[LOGFILE] == given)
      && (a.store[LOGFILE] == given || a.store[LOGFILE] == "/data/data/" + package.value + "/" + given)
  {
    hide Parse, Forced, PutAll;
    ForcedIsDistinct(ddmActive, address);
    PutAllMeaning(Parse(opts), Forced(ddmActive, address));
    ParseIsClean(opts);
    assert CleanPair((LOGFILE, Parse(opts).store[LOGFILE]));
  }

  lemma IndexSnoc(keys: seq<string>, k: string, x: string)
    ensures IndexOf(keys + [k], x) == if IndexOf(keys, x) < |keys| then IndexOf(keys, x) else if x == k then |keys| else |keys| + 1
    ensures IndexOf(keys, x) < |keys| <==> x in keys
  {
    hide IndexOf;
    var i, j := IndexOf(keys + [k], x), IndexOf(keys, x);
    assert (keys + [k])[|keys|] == k;
    assert j < |keys| ==> (keys + [k])[j] == keys[j];
    assert i < |keys| ==> (keys + [k])[i] == keys[i];
    assert i < |keys| + 1 ==> (keys + [k])[i] == x;
  }

  lemma InsertOther(a: Args, k: string, v: string, x: string, y: string)
    requires Valid(a) && k != x && k != y
    ensures var b := Inserted(a, k, v); Valid(b) && (x in b.keys <==> x in a.keys) && (y in b.keys <==> y in a.keys)
    ensures Before(Inserted(a, k, v).keys, x, y) <==> Before(a.keys, x, y)
  {
    hide IndexOf;
    IndexSnoc(a.keys, k, x);
    IndexSnoc(a.keys, k, y);
    PutKeeps(a, k, v);
  }

  lemma InsertBoth(a: Args, x: string, v: string, y: string, w: string)
    requires Valid(a) && x != y
    ensures Before(Inserted(Inserted(a, x, v), y, w).keys, x, y) <==> (y in a.keys ==> Before(a.keys, x, y))
  {
    hide IndexOf;
    PutKeeps(a, x, v);
    var b := Inserted(a, x, v);
    IndexSnoc(a.keys, x, x);
    IndexSnoc(a.keys, x, y);
    IndexSnoc(b.keys, y, x);
    IndexSnoc(b.keys, y, y);
  }

  lemma FixedKeepsKeys(a: Args, package: Option<string>)
    ensures Fixed(a, package).keys == a.keys
  {
  }

  /** The transport is listed before the address, as the agent needs, exactly when the user did not
      give an address, or gave a transport before it. */
  lemma TransportFirstExactly(opts: string, ddmActive: bool, address: int, package: Option<string>)
    ensures Before(AgentArgs(opts, ddmActive, address, package).keys, "transport", "address") <==>
      ("address" in Parse(opts).keys ==> Before(Parse(opts).keys, "transport", "address"))
  {
    hide Parse, ToString, PutAll, Before, Inserted, Valid, Clean;
    ParseIsClean(opts);
    var user, t, d := Parse(opts), "transport", "address";
    ForcedIsDistinct(ddmActive, address);
    var f := Forced(ddmActive, address);
    assert f[3].0 == t && f[4].0 == d;
    FivePuts(user, ddmActive, address);
    var a1 := Inserted(user, "server", "y");
    var a2 := Inserted(a1, "suspend", "n");
    var a3 := Inserted(a2, "ddm_already_active", if ddmActive then "y" else "n");
    InsertOther(user, "server", "y", t, d);
    InsertOther(a1, "suspend", "n", t, d);
    InsertOther(a2, "ddm_already_active", if ddmActive then "y" else "n", t, d);
    InsertBoth(a3, t, "dt_fd_forward", d, ToString(address));
    FixedKeepsKeys(PutAll(user, f), package);
  }

  lemma OneOption(key: string, value: string)
    requires CleanPair((key, value))
    ensures Parse(key + "=" + value) == Args([key], map[key := value])
  {
    hide CleanPair, Parse;
    var a := Args([key], map[key := value]);
    assert Joined(a) == key + "=" + value by {
      ListedCons(Tokens(a, 1));
      ListedNone();
    }
    CleanRoundTrip(a);
  }

  /** With an address first the order is wrong. */
  lemma AddressFirst(ddmActive: bool, address: int, package: Option<string>)
    ensures !Before(AgentArgs("address=1", ddmActive, address, package).keys, "transport", "address")
  {
    hide AgentArgs, Parse;
    PlainIsClean("address", "1");
    OneOption("address", "1");
    assert "address" + "=" + "1" == "address=1";
    TransportFirstExactly("address=1", ddmActive, address, package);
    assert Parse("address=1").keys == ["address"];
    assert IndexOf(["address"], "address") == 0;
  }

  /** With a relative log file and a package name that has a comma, the agent reads something else. */
  lemma PackageWithComma(ddmActive: bool, address: int)
    ensures var a := AgentArgs("logfile=x", ddmActive, address, Some("a,b")); Valid(a) && Parse(Joined(a)) != a
  {
    hide Parse, Forced, PutAll, Joined, Valid;
    var f, package := Forced(ddmActive, address), "a,b";
    PlainIsClean(LOGFILE, "x");
    OneOption(LOGFILE, "x");
    assert LOGFILE + "=" + "x" == "logfile=x";
    ForcedIsDistinct(ddmActive, address);
    PutAllMeaning(Parse("logfile=x"), f);
    assert package[1] == ',' && package[1] in package;
    AgentReadsBack("logfile=x", ddmActive, address, Some(package));
  }
}
