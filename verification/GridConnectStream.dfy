/** Cutting a TCP byte stream into GridConnect texts, and why it does not matter how the stream was cut. */
module GridConnectStream {
  import opened Can
  import opened GridConnectCodec

  /** The first place from `i` on where `c` stands, or the length of the text. */
  function Find(p: Text, c: char, i: nat): (r: nat)
    requires i <= |p|
    ensures i <= r <= |p| && (forall j :: i <= j < r ==> p[j] != c) && (r < |p| ==> p[r] == c)
    decreases |p| - i
  {
    if i == |p| || p[i] == c then i else Find(p, c, i + 1)
  }

  /** The receive buffer and the frames that were queued so far. */
  datatype Reception = Reception(pending: Text, queued: seq<Frame>)

  function FramesOf(t: Text): (fs: seq<Frame>)
    ensures |fs| <= 1
  {
    match Decode(t) case Some(f) => [f] case None => []
  }

  /** One complete text from the data: too long a one is passed over and leaves the buffer as it was. */
  function Accept(r: Reception, t: Text): Reception {
    if |t| <= GC_MAX_MSG then Reception([], r.queued + FramesOf(t)) else r
  }

  /** Every text in `p`; an unfinished one at the end goes into the buffer if it fits. */
  function Extract(r: Reception, p: Text): (r': Reception)
    decreases |p|
  {
    var s := Find(p, ':', 0);
    if s == |p| then r else
    var e := Find(p, ';', s);
    if e == |p| then (if |p| - s <= GC_MAX_MSG then r.(pending := p[s..]) else r)
    else Extract(Accept(r, p[s..e + 1]), p[e + 1..])
  }

  /** One segment: a text that was left unfinished comes first. */
  function Receive(r: Reception, data: Text): Reception {
    if data == [] then r else Extract(r, r.pending + data)
  }

  function ReceiveAll(r: Reception, segments: seq<Text>): Reception {
    if segments == [] then r else Receive(ReceiveAll(r, segments[..|segments| - 1]), segments[|segments| - 1])
  }

  function Flat(segments: seq<Text>): Text {
    if segments == [] then [] else Flat(segments[..|segments| - 1]) + segments[|segments| - 1]
  }

  // ---- The stream as a whole ----

  /** What a whole stream holds: its frames, the unfinished text at its end, and whether every text, finished or not,
      fits the buffer of 28 characters. */
  datatype Parsed = Parsed(clean: bool, frames: seq<Frame>, tail: Text)

  function Parse(p: Text): (r: Parsed)
    decreases |p|
  {
    var s := Find(p, ':', 0);
    if s == |p| then Parsed(true, [], []) else
    var e := Find(p, ';', s);
    if e == |p| then Parsed(|p| - s <= 28, [], p[s..]) else
    Whole(p[s..e + 1], Parse(p[e + 1..]))
  }

  /** A complete text in front of the rest of the stream. */
  function Whole(t: Text, rest: Parsed): Parsed {
    Parsed(|t| <= 28 && rest.clean, FramesOf(t) + rest.frames, rest.tail)
  }

  predicate Lacks(p: Text, c: char, i: nat, r: nat) { i <= r <= |p| && forall j :: i <= j < r ==> p[j] != c }

  lemma FindIs(p: Text, c: char, i: nat, r: nat)
    requires Lacks(p, c, i, r) && (r < |p| ==> p[r] == c)
    ensures Find(p, c, i) == r
  {}

  lemma FindDropped(p: Text, c: char, from: nat, i: nat)
    requires from + i <= |p|
    ensures Find(p[from..], c, i) == Find(p, c, from + i) - from
  {
    FindIs(p[from..], c, i, Find(p, c, from + i) - from);
  }

  lemma CutOut(p: Text, from: nat, i: nat, j: nat)
    requires from <= i <= j <= |p|
    ensures p[from..][i - from..j - from] == p[i..j] && p[from..][j - from..] == p[j..]
  {}

  lemma FoundIsToken(p: Text, from: nat)
    requires from <= |p|
    ensures var s := Find(p, ':', from);
            s < |p| ==> var e := Find(p, ';', s); e < |p| ==> s < e && IsToken(p[s..e + 1])
  {}

  lemma ExtractNothing(r: Reception)
    ensures Extract(r, []) == r
  {}

  /** Extracting from some place on, in terms of places in the whole data. */
  lemma ExtractFrom(r: Reception, p: Text, from: nat)
    requires from <= |p|
    ensures var s := Find(p, ':', from);
            if s == |p| then Extract(r, p[from..]) == r else
            var e := Find(p, ';', s);
            if e == |p| then Extract(r, p[from..]) == (if |p| - s <= GC_MAX_MSG then r.(pending := p[s..]) else r)
            else s < e && IsToken(p[s..e + 1]) && Extract(r, p[from..]) == Extract(Accept(r, p[s..e + 1]), p[e + 1..])
  {
    hide Find, IsToken, Accept, Extract;
    FoundIsToken(p, from);
    var s := Find(p, ':', from);
    FindDropped(p, ':', from, 0);
    if s == |p| {
      ExtractUnfold(r, p[from..], s - from, 0);
    } else {
      var e := Find(p, ';', s);
      FindDropped(p, ';', from, s - from);
      ExtractUnfold(r, p[from..], s - from, e - from);
      CutOut(p, from, s, s);
      if e < |p| {
        CutOut(p, from, s, e + 1);
      }
    }
  }

  lemma ExtractUnfold(r: Reception, q: Text, s: nat, e: nat)
    requires s == Find(q, ':', 0) && (s < |q| ==> e == Find(q, ';', s))
    ensures s == |q| ==> Extract(r, q) == r
    ensures s < |q| == e ==> Extract(r, q) == if |q| - s <= GC_MAX_MSG then r.(pending := q[s..]) else r
    ensures s < |q| && e < |q| ==> Extract(r, q) == Extract(Accept(r, q[s..e + 1]), q[e + 1..])
  {
    hide Find, Accept;
  }

  lemma ParseNoise(p: Text)
    requires Lacks(p, ':', 0, |p|)
    ensures Parse(p) == Parsed(true, [], [])
  {
    FindIs(p, ':', 0, |p|);
  }

  lemma ParseUnfinished(p: Text, s: nat)
    requires s < |p| && Lacks(p, ':', 0, s) && p[s] == ':' && Lacks(p, ';', s, |p|)
    ensures Parse(p) == Parsed(|p| - s <= GC_MAX_MSG, [], p[s..])
  {
    hide Find, Lacks;
    FindIs(p, ':', 0, s);
    FindIs(p, ';', s, |p|);
  }

  lemma ParseWhole(p: Text, s: nat, e: nat)
    requires s < e < |p| && Lacks(p, ':', 0, s) && p[s] == ':' && Lacks(p, ';', s, e) && p[e] == ';'
    ensures Parse(p) == Whole(p[s..e + 1], Parse(p[e + 1..]))
  {
    hide Find, Lacks, Whole;
    FindIs(p, ':', 0, s);
    FindIs(p, ';', s, e);
  }

  lemma StartIsIn(p: Text)
    ensures ':' in p <==> Find(p, ':', 0) < |p|
  {}

  lemma NoStartNoise(p: Text)
    requires ':' !in p
    ensures Parse(p) == Parsed(true, [], [])
  {
    ParseNoise(p);
  }

  lemma AcceptedThenRest(r: Reception, t: Text, rest: Text)
    requires |t| <= GC_MAX_MSG
    ensures (if ':' in rest then Parse(rest).tail else Accept(r, t).pending) == Parse(rest).tail
    ensures Accept(r, t).queued + Parse(rest).frames == r.queued + (FramesOf(t) + Parse(rest).frames)
  {
    hide FramesOf, Parse;
    if ':' !in rest { NoStartNoise(rest); }
  }

  lemma {:induction false} ExtractClean(r: Reception, p: Text)
    requires Parse(p).clean
    ensures Extract(r, p) == Reception(if ':' in p then Parse(p).tail else r.pending, r.queued + Parse(p).frames)
    decreases |p|
  {
    hide FramesOf, Find, Lacks, Accept;
    var s := Find(p, ':', 0);
    StartIsIn(p);
    if s < |p| && Find(p, ';', s) < |p| {
      var e := Find(p, ';', s);
      ExtractClean(Accept(r, p[s..e + 1]), p[e + 1..]);
      AcceptedThenRest(r, p[s..e + 1], p[e + 1..]);
    } else {
      assert r.queued + [] == r.queued;
    }
  }

  lemma Shifted(x: Text, y: Text, i: nat, j: nat)
    requires i <= j <= |y|
    ensures (x + y)[|x| + i..|x| + j] == y[i..j] && (x + y)[|x| + i..] == y[i..]
  {}

  lemma LacksShifted(x: Text, y: Text, c: char, i: nat, j: nat)
    requires Lacks(y, c, i, j)
    ensures Lacks(x + y, c, |x| + i, |x| + j)
    ensures i == 0 && Lacks(x, c, 0, |x|) ==> Lacks(x + y, c, 0, |x| + j)
  {}

  /** What lies before the first start is noise. */
  lemma SkipNoise(x: Text, y: Text)
    requires Lacks(x, ':', 0, |x|)
    ensures Parse(x + y) == Parse(y)
  {
    hide Parse, Lacks, FramesOf;
    var s := FirstStart(y);
    LacksShifted(x, y, ':', 0, s);
    if s == |y| {
      ParseNoise(y);
      ParseNoise(x + y);
    } else {
      var e := FirstEnd(y, s);
      LacksShifted(x, y, ';', s, e);
      if e == |y| {
        Shifted(x, y, s, s);
        ParseUnfinished(y, s);
        ParseUnfinished(x + y, |x| + s);
      } else {
        ParseWhole(y, s, e);
        ParseWhole(x + y, |x| + s, |x| + e);
        Shifted(x, y, s, e + 1);
        Shifted(x, y, e + 1, e + 1);
      }
    }
  }

  lemma FirstStart(p: Text) returns (s: nat)
    ensures Lacks(p, ':', 0, s) && s <= |p| && (s < |p| ==> p[s] == ':')
  {
    s := Find(p, ':', 0);
  }

  lemma FirstEnd(p: Text, s: nat) returns (e: nat)
    requires s < |p| && p[s] == ':'
    ensures Lacks(p, ';', s, e) && s < e <= |p| && (e < |p| ==> p[e] == ';')
  {
    e := Find(p, ';', s);
  }

  /** Reading on: the stream so far, and what its tail and the new data make. */
  function Onward(sofar: Parsed, next: Parsed): Parsed {
    Parsed(sofar.clean && next.clean, sofar.frames + next.frames, next.tail)
  }

  lemma WholeGoesOn(t: Text, sofar: Parsed, next: Parsed)
    ensures Whole(t, Onward(sofar, next)) == Onward(Whole(t, sofar), next)
  {
    hide FramesOf;
    assert (FramesOf(t) + sofar.frames) + next.frames == FramesOf(t) + (sofar.frames + next.frames);
  }

  lemma Joined(a: Text, b: Text, i: nat, j: nat)
    requires i <= j <= |a|
    ensures (a + b)[i..j] == a[i..j] && (a + b)[j..] == a[j..] + b && a + b == a[..i] + (a[i..] + b)
  {}

  lemma LacksJoined(a: Text, b: Text, c: char, i: nat, j: nat)
    requires Lacks(a, c, i, j)
    ensures Lacks(a + b, c, i, j) && (i == 0 ==> Lacks(a[..j], c, 0, j))
  {}

  lemma LacksRest(a: Text, s: nat)
    requires Lacks(a, ';', s, |a|)
    ensures Lacks(a[s..], ';', 0, |a[s..]|)
  {}

  /** The frames and the tail of a longer stream come from the tail of the old one on: what lies before that
      is done with. */
  lemma {:induction false} StreamGoesOn(a: Text, b: Text)
    requires Parse(a + b).clean
    ensures Parse(a + b) == Onward(Parse(a), Parse(Parse(a).tail + b))
    decreases |a|
  {
    hide FramesOf, Lacks, Parse;
    var s := FirstStart(a);
    if s == |a| {
      ParseNoise(a);
      SkipNoise(a, b);
      assert [] + b == b;
    } else {
      LacksJoined(a, b, ':', 0, s);
      var e := FirstEnd(a, s);
      if e == |a| {
        ParseUnfinished(a, s);
        Joined(a, b, s, s);
        SkipNoise(a[..s], a[s..] + b);
        LacksRest(a, s);
        UnfinishedFits(a[s..], b);
      } else {
        LacksJoined(a, b, ';', s, e);
        ParseWhole(a, s, e);
        ParseWhole(a + b, s, e);
        Joined(a, b, s, e + 1);
        var rest := a[e + 1..];
        StreamGoesOn(rest, b);
        WholeGoesOn(a[s..e + 1], Parse(rest), Parse(Parse(rest).tail + b));
      }
    }
  }

  /** A text that fits when it is finished fits before. */
  lemma UnfinishedFits(t: Text, b: Text)
    requires |t| > 0 && t[0] == ':' && Lacks(t, ';', 0, |t|) && Parse(t + b).clean
    ensures |t| <= GC_MAX_MSG
  {
    hide FramesOf, Parse;
    var p := t + b;
    var e := FirstEnd(p, 0);
    if e == |p| {
      ParseUnfinished(p, 0);
    } else {
      ParseWhole(p, 0, e);
    }
  }

  lemma {:induction false} TailStarts(p: Text)
    ensures var t := Parse(p).tail; t == [] || t[0] == ':'
    decreases |p|
  {
    hide FramesOf, Lacks, Parse;
    var s := FirstStart(p);
    if s == |p| {
      ParseNoise(p);
    } else {
      var e := FirstEnd(p, s);
      if e == |p| {
        ParseUnfinished(p, s);
      } else {
        ParseWhole(p, s, e);
        TailStarts(p[e + 1..]);
      }
    }
  }

  /** The buffer holds the tail of the stream so far and the queue its frames; one more segment keeps it so. */
  lemma ReceiveGoesOn(a: Text, b: Text)
    requires Parse(a + b).clean
    ensures Receive(Reception(Parse(a).tail, Parse(a).frames), b) == Reception(Parse(a + b).tail, Parse(a + b).frames)
  {
    hide Parse, Extract;
    var r := Reception(Parse(a).tail, Parse(a).frames);
    if b == [] {
      assert a + b == a;
    } else {
      StreamGoesOn(a, b);
      TailStarts(a);
      ExtractClean(r, r.pending + b);
      if ':' !in r.pending + b {
        NoStartNoise(r.pending + b);
        assert r.pending == [];
      }
    }
  }

  lemma {:induction false} CleanSoFar(a: Text, b: Text)
    requires Parse(a + b).clean
    ensures Parse(a).clean
  {
    StreamGoesOn(a, b);
  }

  /** However a stream whose texts all fit the buffer is cut into segments, the queue holds the frames of the
      whole stream in order, and the buffer what is unfinished at its end. */
  lemma {:induction false} CutsDoNotMatter(segments: seq<Text>)
    requires Parse(Flat(segments)).clean
    ensures var whole := Parse(Flat(segments));
            ReceiveAll(Reception([], []), segments) == Reception(whole.tail, whole.frames)
  {
    hide Parse, Receive;
    if segments == [] {
      NoStartNoise([]);
    } else {
      var prior, last := segments[..|segments| - 1], segments[|segments| - 1];
      CleanSoFar(Flat(prior), last);
      CutsDoNotMatter(prior);
      ReceiveGoesOn(Flat(prior), last);
    }
  }

  lemma OverlongPassedOver(r: Reception, t: Text)
    requires IsToken(t) && |t| > GC_MAX_MSG
    ensures Extract(r, t) == r
  {
    assert Lacks(t, ';', 0, |t| - 1) && Lacks(t, ':', 0, 0);
    hide IsToken, Lacks, Find;
    FindIs(t, ':', 0, 0);
    FindIs(t, ';', 0, |t| - 1);
    assert t[0..|t|] == t && t[|t|..] == [];
  }

  lemma StartKept(r: Reception)
    ensures Extract(r, [':']) == r.(pending := [':'])
  {
    var t := [':'];
    FindIs(t, ':', 0, 0);
    FindIs(t, ';', 0, 1);
    hide Find;
    assert t[0..] == t;
  }

  /** A text too long for the buffer does make the cut matter: passed over whole it leaves nothing behind,
      but cut behind its start that start stays in the buffer, in front of whatever comes next. */
  lemma OverlongCutMatters(t: Text)
    requires IsToken(t) && |t| > GC_MAX_MSG
    ensures Receive(Reception([], []), t) == Reception([], [])
    ensures Receive(Receive(Reception([], []), t[..1]), t[1..]) == Reception([':'], [])
  {
    hide Extract, Lacks;
    OverlongPassedOver(Reception([], []), t);
    StartKept(Reception([], []));
    OverlongPassedOver(Reception([':'], []), t);
    assert [] + t == t && [] + t[..1] == [':'] && [':'] + t[1..] == t;
  }

  // ---- Frames with noise between them ----

  /** Noise without a start, and then a text. */
  datatype Item = Item(noise: Text, text: Text)

  predicate Proper(i: Item) { ':' !in i.noise && IsToken(i.text) && |i.text| <= GC_MAX_MSG }

  function Stream(items: seq<Item>, last: Text): Text {
    if items == [] then last else items[0].noise + (items[0].text + Stream(items[1..], last))
  }

  function Decoded(items: seq<Item>): seq<Frame> {
    if items == [] then [] else FramesOf(items[0].text) + Decoded(items[1..])
  }

  lemma {:induction false} StreamParsed(items: seq<Item>, last: Text)
    requires (forall i :: i in items ==> Proper(i)) && ':' !in last
    ensures Parse(Stream(items, last)) == Parsed(true, Decoded(items), [])
  {
    hide Parse, FramesOf;
    if items == [] {
      NoStartNoise(last);
    } else {
      var t, rest := items[0].text, Stream(items[1..], last);
      assert Proper(items[0]);
      StreamParsed(items[1..], last);
      SkipNoise(items[0].noise, t + rest);
      ParseWhole(t + rest, 0, |t| - 1);
      Joined(t, rest, 0, |t|);
      assert t[0..|t|] == t && t[|t|..] == [];
      assert [] + rest == rest;
    }
  }

  /** The frames queued from a stream of texts with noise between them, cut in any way, are exactly those
      that the texts decode to, in order. */
  lemma FramesArrive(segments: seq<Text>, items: seq<Item>, last: Text)
    requires (forall i :: i in items ==> Proper(i)) && ':' !in last && Flat(segments) == Stream(items, last)
    ensures ReceiveAll(Reception([], []), segments) == Reception([], Decoded(items))
  {
    hide Parse, ReceiveAll;
    StreamParsed(items, last);
    CutsDoNotMatter(segments);
  }

  /** The items of a stream that carries the texts of frames. */
  function Carrying(frames: seq<Frame>, noise: seq<Text>): (items: seq<Item>)
    requires |noise| == |frames| && forall f :: f in frames ==> Valid(f)
    ensures |items| == |frames|
  {
    seq(|frames|, i requires 0 <= i < |frames| => Item(noise[i], Encode(frames[i]).value))
  }

  predicate SameFrames(fs: seq<Frame>, gs: seq<Frame>) {
    |fs| == |gs| && forall i :: 0 <= i < |fs| ==> SameFrame(fs[i], gs[i])
  }

  lemma {:induction false} CarriedDecode(frames: seq<Frame>, noise: seq<Text>)
    requires |noise| == |frames| && forall f :: f in frames ==> Valid(f)
    ensures SameFrames(Decoded(Carrying(frames, noise)), frames)
  {
    hide Encode, Decode, SameFrame, Valid;
    if frames != [] {
      CarriedDecode(frames[1..], noise[1..]);
      assert Carrying(frames, noise)[1..] == Carrying(frames[1..], noise[1..]);
      RoundTrip(frames[0]);
    }
  }

  /** Frames encoded at one end of a connection and cut up on the way are the frames queued at the other. */
  lemma {:induction false} EncodedFramesArrive(segments: seq<Text>, frames: seq<Frame>, noise: seq<Text>, last: Text)
    requires |noise| == |frames| && forall f :: f in frames ==> Valid(f)
    requires (forall x :: x in noise ==> ':' !in x) && ':' !in last
    requires Flat(segments) == Stream(Carrying(frames, noise), last)
    ensures SameFrames(ReceiveAll(Reception([], []), segments).queued, frames)
  {
    hide Encode, ReceiveAll, SameFrame, IsToken, Valid, Stream;
    var items := Carrying(frames, noise);
    forall i | i in items
      ensures Proper(i)
    {
      var k :| 0 <= k < |items| && items[k] == i;
      EncodedIsToken(frames[k]);
    }
    FramesArrive(segments, items, last);
    CarriedDecode(frames, noise);
  }
}
