/** Texts too long for the receive buffer: where a stream that holds one is cut does matter. */
module GridConnectCuts {
  import opened Can
  import opened GridConnectCodec
  import opened GridConnectStream

  const NOTHING := Reception([], [])

  /** The start of a text, without its end. */
  predicate Begun(t: Text) { t != [] && t[0] == ':' && Lacks(t, ';', 0, |t|) }

  /** What the data adds to the begun text `t` is more than the buffer holds. */
  predicate Overflows(t: Text, data: Text) {
    var e := Find(data, ';', 0);
    |t| + (if e < |data| then e + 1 else |data|) > GC_MAX_MSG
  }

  lemma BegunEnds(t: Text, data: Text)
    requires Begun(t)
    ensures Find(t + data, ':', 0) == 0 && Find(t + data, ';', 0) == |t| + Find(data, ';', 0)
  {
    var e := Find(data, ';', 0);
    assert forall j :: |t| <= j < |t| + e ==> (t + data)[j] == data[j - |t|];
    FindIs(t + data, ':', 0, 0);
    FindIs(t + data, ';', 0, |t| + e);
  }

  /** Such data passes over the begun text, which is still in the buffer for what follows. */
  lemma PassedOver(r: Reception, data: Text)
    requires Begun(r.pending) && Overflows(r.pending, data)
    ensures var e := Find(data, ';', 0);
            Receive(r, data) == if e < |data| then Extract(r, data[e + 1..]) else r
  {
    hide Find, Lacks, Extract;
    if data != [] {
      var e, p := Find(data, ';', 0), r.pending + data;
      assert |r.pending| > 0;
      BegunEnds(r.pending, data);
      ExtractUnfold(r, p, 0, |r.pending| + e);
      if e < |data| { assert p[|r.pending| + e + 1..] == data[e + 1..]; }
    }
  }

  /** Data cut behind every finished text and the noise after it; with `joined`, a mere start behind the last of
      them is left with it. */
  function Pieces(p: Text, joined: bool): (xs: seq<Text>)
    decreases |p|
  {
    var e := Find(p, ';', 0);
    if e == |p| then [p] else
    var s := Find(p, ':', e + 1);
    if s == |p| || (joined && s + 1 == |p|) then [p] else [p[..s]] + Pieces(p[s..], joined)
  }

  lemma {:induction false} FlatCons(x: Text, xs: seq<Text>)
    ensures Flat([x] + xs) == x + Flat(xs)
  {
    var all := [x] + xs;
    if xs == [] {
      assert all[..0] == [] && x + [] == x == [] + x;
    } else {
      FlatCons(x, xs[..|xs| - 1]);
      assert all[..|all| - 1] == [x] + xs[..|xs| - 1];
    }
  }

  lemma {:induction false} ReceiveCons(r: Reception, x: Text, xs: seq<Text>)
    ensures ReceiveAll(r, [x] + xs) == ReceiveAll(Receive(r, x), xs)
  {
    hide Receive;
    var all := [x] + xs;
    if xs == [] {
      assert all[..0] == [];
    } else {
      ReceiveCons(r, x, xs[..|xs| - 1]);
      assert all[..|all| - 1] == [x] + xs[..|xs| - 1];
    }
  }

  lemma JustOne(r: Reception, x: Text)
    ensures ReceiveAll(r, [x]) == Receive(r, x) && Flat([x]) == x
  {
    hide Receive;
    ReceiveCons(r, x, []);
    FlatCons(x, []);
    assert [x] + [] == [x] && x + [] == x;
  }

  /** The start of the text behind the first one in `x`, or the length of `x`. */
  function NextStart(x: Text): (s: nat)
    ensures s <= |x| && (s == 0 ==> x == [])
  {
    var e := Find(x, ';', 0);
    if e == |x| then |x| else Find(x, ':', e + 1)
  }

  lemma PiecesAre(x: Text, joined: bool)
    ensures var s := NextStart(x);
            if s == |x| || (joined && s + 1 == |x|) then Pieces(x, joined) == [x]
            else Pieces(x, joined) == [x[..s]] + Pieces(x[s..], joined)
  {}

  lemma {:induction false} PiecesFlat(p: Text, joined: bool)
    ensures Flat(Pieces(p, joined)) == p
    decreases |p|
  {
    hide NextStart, Flat, Pieces;
    JustOne(NOTHING, p);
    PiecesAre(p, joined);
    var s := NextStart(p);
    if s < |p| && !(joined && s + 1 == |p|) {
      PiecesFlat(p[s..], joined);
      FlatCons(p[..s], Pieces(p[s..], joined));
    }
  }

  lemma NoiseDropped(r: Reception, x: Text)
    requires Lacks(x, ':', 0, |x|)
    ensures Extract(r, x) == r
  {
    FindIs(x, ':', 0, |x|);
  }

  lemma StartBehindNoise(r: Reception, x: Text)
    requires x != [] && Lacks(x, ':', 0, |x| - 1) && x[|x| - 1] == ':'
    ensures Extract(r, x).pending == [':']
  {
    var s := |x| - 1;
    FindIs(x, ':', 0, s);
    FindIs(x, ';', s, |x|);
    hide Find;
    ExtractUnfold(r, x, s, |x|);
    assert x[s..] == [':'];
  }

  /** What lies behind the first end and in front of the next start. */
  lemma NoiseBetween(x: Text, e: nat)
    requires e < |x| && e == Find(x, ';', 0)
    ensures var s := Find(x, ':', e + 1);
            && Lacks(x[e + 1..s], ':', 0, s - e - 1) && Lacks(x[e + 1..], ':', 0, s - e - 1)
            && Find(x[..s], ';', 0) == e && x[..s][e + 1..] == x[e + 1..s]
            && (s < |x| ==> x[s..][0] == ':' && Find(x[s..], ';', 0) > 0)
  {
    var s := Find(x, ':', e + 1);
    FindIs(x[..s], ';', 0, e);
  }

  /** Data with one text in it leaves the begun one in the buffer. */
  lemma OneTextSticks(r: Reception, x: Text)
    requires Begun(r.pending) && Overflows(r.pending, x) && NextStart(x) == |x|
    ensures Receive(r, x) == r
  {
    hide Find, Lacks, Extract, Receive;
    PassedOver(r, x);
    var e := Find(x, ';', 0);
    if e < |x| {
      NoiseBetween(x, e);
      assert x[e + 1..|x|] == x[e + 1..];
      NoiseDropped(r, x[e + 1..]);
    }
  }

  lemma StartTakesOver(r: Reception, x: Text)
    requires Begun(r.pending) && Overflows(r.pending, x) && NextStart(x) + 1 == |x|
    ensures Receive(r, x).pending == [':']
  {
    hide Find, Lacks, Extract, Receive;
    PassedOver(r, x);
    var e := Find(x, ';', 0);
    NoiseBetween(x, e);
    StartBehindNoise(r, x[e + 1..]);
  }

  lemma FirstTextAlone(t: Text, x: Text)
    requires Overflows(t, x) && NextStart(x) < |x|
    ensures var s := NextStart(x);
            Overflows(t, x[..s]) && NextStart(x[..s]) == s && s > 0
            && x[s..][0] == ':' && Find(x[s..], ';', 0) > 0
  {
    hide Lacks;
    var e := Find(x, ';', 0);
    NoiseBetween(x, e);
    FindIs(x[..NextStart(x)], ':', e + 1, NextStart(x));
  }

  /** A buffer filled with the start of a text too long for it gets stuck: every text after it is added and then
      too long as well. Only a start left with other data can take its place. */
  lemma {:induction false} Stuck(r: Reception, x: Text, joined: bool)
    requires Begun(r.pending) && Overflows(r.pending, x)
    requires |r.pending| >= if joined then GC_MAX_MSG - 1 else GC_MAX_MSG
    ensures var t := ReceiveAll(r, Pieces(x, joined)).pending;
            t == r.pending || (joined && t == [':'])
    decreases |x|
  {
    hide Find, Receive, ReceiveAll, Begun, NextStart;
    JustOne(r, x);
    var s := NextStart(x);
    PiecesAre(x, joined);
    if s == |x| {
      OneTextSticks(r, x);
    } else if joined && s + 1 == |x| {
      StartTakesOver(r, x);
    } else {
      FirstTextAlone(r.pending, x);
      OneTextSticks(r, x[..s]);
      ReceiveCons(r, x[..s], Pieces(x[s..], joined));
      Stuck(r, x[s..], joined);
    }
  }

  /** The first `n` characters of a text that does not fit, and then the pieces of what follows. */
  function CutAt(p: Text, s: nat, n: nat, joined: bool): (xs: seq<Text>)
    requires s + n <= |p|
  {
    [p[..s + n]] + Pieces(p[s + n..], joined)
  }

  /** Position `s` starts the first text in `p`, and it does not fit the buffer. */
  predicate OverlongAt(p: Text, s: nat) {
    s < |p| && s == Find(p, ':', 0) && (var e := Find(p, ';', s); (if e < |p| then e + 1 else |p|) - s > GC_MAX_MSG)
  }

  lemma StartBegun(p: Text, s: nat, n: nat)
    requires OverlongAt(p, s) && 1 <= n <= GC_MAX_MSG
    ensures s + n <= |p| && Begun(p[s..s + n])
    ensures Lacks(p[..s + n], ':', 0, s) && p[..s + n][s] == ':' && Lacks(p[..s + n], ';', s, s + n)
  {}

  lemma RestOverflows(p: Text, s: nat, n: nat)
    requires OverlongAt(p, s) && 1 <= n <= GC_MAX_MSG && s + n <= |p|
    ensures Overflows(p[s..s + n], p[s + n..])
  {
    FindDropped(p, ';', s + n, 0);
    FindIs(p, ';', s + n, Find(p, ';', s));
  }

  /** `n` characters of it are stored, and the rest is too much. */
  lemma StartStored(r: Reception, p: Text, s: nat, n: nat)
    requires r.pending == [] && OverlongAt(p, s) && 1 <= n <= GC_MAX_MSG
    ensures s + n <= |p| && |p[s..s + n]| == n && Begun(p[s..s + n]) && Overflows(p[s..s + n], p[s + n..])
    ensures Receive(r, p[..s + n]) == r.(pending := p[s..s + n])
  {
    hide Find, Extract, Lacks, Begun, Overflows, OverlongAt;
    StartBegun(p, s, n);
    RestOverflows(p, s, n);
    var q := p[..s + n];
    FindIs(q, ':', 0, s);
    FindIs(q, ';', s, s + n);
    assert [] + q == q && q[s..] == p[s..s + n];
    ExtractUnfold(r, q, s, s + n);
  }

  lemma CutSticks(r: Reception, p: Text, s: nat, joined: bool)
    requires r.pending == [] && OverlongAt(p, s)
    ensures var n := if joined then GC_MAX_MSG - 1 else GC_MAX_MSG;
            && s + n <= |p| && Flat(CutAt(p, s, n, joined)) == p
            && (var t := ReceiveAll(r, CutAt(p, s, n, joined)).pending; |t| == n || (joined && t == [':']))
  {
    hide Find, Receive, ReceiveAll, Begun, Overflows, Pieces, OverlongAt;
    var n := if joined then GC_MAX_MSG - 1 else GC_MAX_MSG;
    StartStored(r, p, s, n);
    PiecesFlat(p[s + n..], joined);
    FlatCons(p[..s + n], Pieces(p[s + n..], joined));
    ReceiveCons(r, p[..s + n], Pieces(p[s + n..], joined));
    Stuck(Receive(r, p[..s + n]), p[s + n..], joined);
  }

  lemma FirstFitsRestNot(p: Text)
    requires !Parse(p).clean && !OverlongAt(p, Find(p, ':', 0))
    ensures var s := Find(p, ':', 0);
            s < |p| && (var e := Find(p, ';', s);
                        e < |p| && e + 1 - s <= GC_MAX_MSG && !Parse(p[e + 1..]).clean)
  {
    hide Parse, FramesOf, Find;
    var s := Find(p, ':', 0);
    if s == |p| {
      ParseNoise(p);
    } else {
      var e := Find(p, ';', s);
      if e == |p| { ParseUnfinished(p, s); } else { ParseWhole(p, s, e); }
    }
  }

  lemma CutsDifferHere(r: Reception, p: Text, s: nat) returns (xs: seq<Text>, ys: seq<Text>)
    requires r.pending == [] && OverlongAt(p, s)
    ensures Flat(xs) == p == Flat(ys) && ReceiveAll(r, xs).pending != ReceiveAll(r, ys).pending
  {
    hide Flat, ReceiveAll, CutAt, OverlongAt;
    CutSticks(r, p, s, false);
    CutSticks(r, p, s, true);
    xs, ys := CutAt(p, s, GC_MAX_MSG, false), CutAt(p, s, GC_MAX_MSG - 1, true);
  }

  lemma ConsDiffer(r: Reception, x: Text, xs: seq<Text>, ys: seq<Text>)
    requires Flat(xs) == Flat(ys) && ReceiveAll(Receive(r, x), xs).pending != ReceiveAll(Receive(r, x), ys).pending
    ensures Flat([x] + xs) == x + Flat(xs) == Flat([x] + ys)
    ensures ReceiveAll(r, [x] + xs).pending != ReceiveAll(r, [x] + ys).pending
  {
    hide Flat, Receive, ReceiveAll;
    FlatCons(x, xs);
    FlatCons(x, ys);
    ReceiveCons(r, x, xs);
    ReceiveCons(r, x, ys);
  }

  /** Two cuts of a stream with a text that does not fit, which leave different texts in the buffer. */
  lemma {:induction false} CutsDiffer(r: Reception, p: Text) returns (xs: seq<Text>, ys: seq<Text>)
    requires r.pending == [] && !Parse(p).clean
    ensures Flat(xs) == p == Flat(ys) && ReceiveAll(r, xs).pending != ReceiveAll(r, ys).pending
    decreases |p|
  {
    hide Find, Flat, Receive, ReceiveAll, Parse, OverlongAt, FramesOf;
    var s := Find(p, ':', 0);
    if OverlongAt(p, s) {
      xs, ys := CutsDifferHere(r, p, s);
    } else {
      FirstFitsRestNot(p);
      var e := Find(p, ';', s);
      FittingTextTaken(r, p, s, e);
      xs, ys := CutsDiffer(Receive(r, p[..e + 1]), p[e + 1..]);
      ConsDiffer(r, p[..e + 1], xs, ys);
      xs, ys := [p[..e + 1]] + xs, [p[..e + 1]] + ys;
      assert p == p[..e + 1] + p[e + 1..];
    }
  }

  lemma FoundInFront(p: Text, s: nat, e: nat)
    requires s == Find(p, ':', 0) < |p| && e == Find(p, ';', s) < |p|
    ensures Find(p[..e + 1], ':', 0) == s && Find(p[..e + 1], ';', s) == e
  {
    FindIs(p[..e + 1], ':', 0, s);
    FindIs(p[..e + 1], ';', s, e);
  }

  lemma FittingTextTaken(r: Reception, p: Text, s: nat, e: nat)
    requires r.pending == [] && s == Find(p, ':', 0) < |p| && e == Find(p, ';', s) < |p| && e + 1 - s <= GC_MAX_MSG
    ensures Receive(r, p[..e + 1]) == Reception([], r.queued + FramesOf(p[s..e + 1]))
  {
    hide Find, Extract, FramesOf;
    var q := p[..e + 1];
    FoundInFront(p, s, e);
    UpToEnd(r, q, s);
    assert [] + q == q && q[s..] == p[s..e + 1];
  }

  lemma UpToEnd(r: Reception, q: Text, s: nat)
    requires s == Find(q, ':', 0) < |q| && Find(q, ';', s) == |q| - 1
    ensures Extract(r, q) == Accept(r, q[s..])
  {
    hide Find, Extract, Accept;
    ExtractUnfold(r, q, s, |q| - 1);
    ExtractNothing(Accept(r, q[s..]));
    assert q[s..|q|] == q[s..] && q[|q|..] == [];
  }

  /** However the stream `p` is cut, the buffer and the queue end up the same. */
  ghost predicate CutsAgree(p: Text) {
    forall xs, ys :: Flat(xs) == p == Flat(ys) ==> ReceiveAll(NOTHING, xs) == ReceiveAll(NOTHING, ys)
  }

  /** The cut does not matter exactly when every text in the stream, finished or not, fits the buffer. */
  lemma {:induction false} CutsAgreeExactlyWhen(p: Text)
    ensures CutsAgree(p) <==> Parse(p).clean
  {
    hide Parse, ReceiveAll, Flat;
    if Parse(p).clean {
      forall xs, ys | Flat(xs) == p == Flat(ys)
        ensures ReceiveAll(NOTHING, xs) == ReceiveAll(NOTHING, ys)
      {
        CutsDoNotMatter(xs);
        CutsDoNotMatter(ys);
      }
    } else {
      var xs, ys := CutsDiffer(NOTHING, p);
    }
  }

  lemma TokenFound(t: Text)
    requires IsToken(t)
    ensures Find(t, ':', 0) == 0 && Find(t, ';', 0) == |t| - 1
    ensures Find([':'] + t, ':', 0) == 0 && Find([':'] + t, ';', 0) == |t|
  {
    FindIs(t, ':', 0, 0);
    FindIs(t, ';', 0, |t| - 1);
    FindIs([':'] + t, ':', 0, 0);
    FindIs([':'] + t, ';', 0, |t|);
  }

  /** Behind a start that is left in the buffer a text is lost. */
  lemma SpoiltByStart(t: Text)
    requires IsToken(t)
    ensures Receive(Reception([':'], []), t).queued == []
  {
    hide Find, Extract, IsToken;
    var r, p := Reception([':'], []), [':'] + t;
    assert t != [] && t[0] == ':' by { TokenStarts(t); }
    TokenFound(t);
    ExtractUnfold(r, p, 0, |t|);
    assert p[0..|t| + 1] == p && p[|t| + 1..] == [];
    ExtractNothing(Accept(r, p));
    assert p[1] == ':';
    assert Decode(p) == None;
  }

  lemma TokenStarts(t: Text)
    requires IsToken(t)
    ensures |t| >= 2 && t[0] == ':'
  {}

  lemma FrameQueued(f: Frame)
    requires Valid(f)
    ensures var whole := Receive(NOTHING, Encode(f).value);
            whole.pending == [] && SameFrames(whole.queued, [f])
  {
    hide Encode, Decode, Receive, Find, SameFrame, Valid, IsToken;
    var text := Encode(f).value;
    EncodedIsToken(f);
    RoundTrip(f);
    TokenFound(text);
    TokenStarts(text);
    FittingTextTaken(NOTHING, text, 0, |text| - 1);
    assert text[..|text| - 1 + 1] == text && text[0..|text| - 1 + 1] == text;
  }

  lemma ReceiveTwo(r: Reception, x: Text, y: Text)
    ensures ReceiveAll(r, [x, y]) == Receive(Receive(r, x), y)
  {
    hide Receive, ReceiveAll;
    assert [x, y] == [x] + [y];
    ReceiveCons(r, x, [y]);
    JustOne(Receive(r, x), y);
  }

  /** What is at stake is a frame: behind a text that does not fit, any frame is queued if the text comes in one
      segment, and lost if the text is cut behind its start. */
  lemma {:induction false} OverlongCutLosesFrame(t: Text, f: Frame)
    requires IsToken(t) && |t| > GC_MAX_MSG && Valid(f)
    ensures var whole := ReceiveAll(NOTHING, [t, Encode(f).value]);
            whole.pending == [] && SameFrames(whole.queued, [f])
    ensures ReceiveAll(NOTHING, [t[..1], t[1..], Encode(f).value]).queued == []
  {
    hide Encode, Receive, ReceiveAll, SameFrames, Valid, IsToken;
    var text := Encode(f).value;
    EncodedIsToken(f);
    TokenStarts(t);
    OverlongCutMatters(t);
    ReceiveTwo(NOTHING, t, text);
    FrameQueued(f);
    assert [t[..1], t[1..], text] == [t[..1]] + [t[1..], text];
    ReceiveCons(NOTHING, t[..1], [t[1..], text]);
    ReceiveTwo(Receive(NOTHING, t[..1]), t[1..], text);
    SpoiltByStart(text);
  }
}
