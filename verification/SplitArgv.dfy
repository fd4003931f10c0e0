/** esp_console_split_argv: a command line is split into arguments in place. */
module SplitArgv {
  import opened Bytes

  const QUOTE: byte := 34
  const ESCAPE: byte := 92
  const SPACE: byte := 32

  datatype State = SS_SPACE | SS_ARG | SS_QUOTED_ARG | SS_ARG_ESCAPED | SS_QUOTED_ARG_ESCAPED

  /** The complete arguments, the part of the current one, and the state. */
  datatype Tokens = Tokens(args: seq<seq<byte>>, cur: seq<byte>, state: State)

  /** The characters that an escape produces. */
  predicate Special(c: byte) {
    c == ESCAPE || c == QUOTE || c == SPACE
  }

  function Add(t: Tokens, c: byte): Tokens {
    t.(cur := t.cur + [c])
  }

  function End(t: Tokens): Tokens {
    Tokens(t.args + [t.cur], [], SS_SPACE)
  }

  /** The effect of one character. */
  function Step(t: Tokens, c: byte): Tokens {
    match t.state
    case SS_SPACE =>
      if c == SPACE then t
      else if c == QUOTE then Tokens(t.args, [], SS_QUOTED_ARG)
      else if c == ESCAPE then Tokens(t.args, [], SS_ARG_ESCAPED)
      else Tokens(t.args, [c], SS_ARG)
    case SS_QUOTED_ARG =>
      if c == QUOTE then End(t) else if c == ESCAPE then t.(state := SS_QUOTED_ARG_ESCAPED) else Add(t, c)
    case SS_ARG =>
      if c == SPACE then End(t) else if c == ESCAPE then t.(state := SS_ARG_ESCAPED) else Add(t, c)
    case _ =>
      var u := t.(state := if t.state == SS_ARG_ESCAPED then SS_ARG else SS_QUOTED_ARG);
      if Special(c) then Add(u, c) else u
  }

  /** Splitting stops once there are `limit` arguments. */
  function Feed(t: Tokens, s: seq<byte>, limit: nat): Tokens
    decreases |s|
  {
    if s == [] || |t.args| >= limit then t else Feed(Step(t, s[0]), s[1..], limit)
  }

  const START := Tokens([], [], SS_SPACE)

  /** The last argument may end with the line. */
  function Final(t: Tokens, limit: nat): seq<seq<byte>> {
    if t.state != SS_SPACE && |t.args| < limit then t.args + [t.cur] else t.args
  }

  /** The arguments of a line, at most `limit` of them. */
  function Split(s: seq<byte>, limit: nat): seq<seq<byte>> {
    Final(Feed(START, s, limit), limit)
  }

  lemma FeedOne(t: Tokens, c: byte, rest: seq<byte>, limit: nat)
    requires |t.args| < limit
    ensures Feed(t, [c] + rest, limit) == Feed(Step(t, c), rest, limit)
  {
    assert ([c] + rest)[1..] == rest;
  }

  lemma FeedNone(t: Tokens, limit: nat)
    ensures Feed(t, [], limit) == t
  {
  }

  lemma PairFirst(b: byte, c: byte, rest: seq<byte>)
    ensures [b, c] + rest == [b] + ([c] + rest)
  {
  }

  // ---------------------------------------------------------------- fewer pointers than arguments

  lemma {:induction false} ArgsGrow(t: Tokens, s: seq<byte>, limit: nat)
    ensures t.args <= Feed(t, s, limit).args
    decreases |s|
  {
    if s != [] && |t.args| < limit {
      ArgsGrow(Step(t, s[0]), s[1..], limit);
    }
  }

  lemma {:induction false} FeedTruncated(t: Tokens, s: seq<byte>, less: nat, limit: nat)
    requires |t.args| <= less <= limit
    ensures var all := Final(Feed(t, s, limit), limit);
      Final(Feed(t, s, less), less) == if |all| <= less then all else all[..less]
    decreases |s|
  {
    if |t.args| == less {
      ArgsGrow(t, s, limit);
      var all := Final(Feed(t, s, limit), limit);
      assert t.args <= all;
      assert |all| <= less ==> all == t.args;
    } else if s != [] {
      FeedTruncated(Step(t, s[0]), s[1..], less, limit);
    }
  }

  /** With room for fewer pointers the arguments are the first ones of those found with more room. */
  lemma SplitTruncated(s: seq<byte>, less: nat, limit: nat)
    requires less <= limit
    ensures Split(s, less) == if |Split(s, limit)| <= less then Split(s, limit) else Split(s, limit)[..less]
  {
    FeedTruncated(START, s, less, limit);
  }

  // ---------------------------------------------------------------- every form of a line

  /** A character as it is, or one behind a backslash. */
  datatype Piece = Plain(c: byte) | Pair(c: byte)

  function Spell(p: Piece): seq<byte> {
    match p
    case Plain(c) => [c]
    case Pair(c) => [92, c]
  }

  /** A backslash gives a backslash, a quote or a space; with any other character both are dropped. */
  function Means(p: Piece): seq<byte> {
    match p
    case Plain(c) => [c]
    case Pair(c) => if c in [92, 34, 32] then [c] else []
  }

  function SpellAll(ps: seq<Piece>): seq<byte> {
    if ps == [] then [] else Spell(ps[0]) + SpellAll(ps[1..])
  }

  function MeansAll(ps: seq<Piece>): seq<byte> {
    if ps == [] then [] else Means(ps[0]) + MeansAll(ps[1..])
  }

  /** An argument behind a number of spaces, in quotes or without. */
  datatype Word = Word(spaces: nat, quoted: bool, pieces: seq<Piece>)

  /** Inside quotes there is no bare quote.  Outside there is no bare space, and no bare quote at the beginning; later
      on a quote is a character like others. */
  ghost predicate Legal(w: Word) {
    if w.quoted then forall i | 0 <= i < |w.pieces| :: w.pieces[i] != Plain(92) && w.pieces[i] != Plain(34)
    else
      && w.pieces != [] && w.pieces[0] != Plain(34)
      && forall i | 0 <= i < |w.pieces| :: w.pieces[i] != Plain(92) && w.pieces[i] != Plain(32)
  }

  function Spaces(n: nat): seq<byte> {
    if n == 0 then [] else [32] + Spaces(n - 1)
  }

  function Text(w: Word): seq<byte> {
    if w.quoted then [34] + (SpellAll(w.pieces) + [34]) else SpellAll(w.pieces)
  }

  /** A line ends with any number of spaces, or within an argument: in quotes that are not closed, or behind a
      backslash. */
  datatype Tail = Blank(n: nat) | Cut(word: Word, escape: bool)

  ghost predicate LegalTail(tail: Tail) {
    tail.Cut? ==>
      if tail.word.pieces == [] then tail.word.quoted || tail.escape
      else Legal(tail.word) && (tail.word.quoted || tail.escape)
  }

  function CutText(w: Word, escape: bool): seq<byte> {
    (if w.quoted then [34] else []) + (SpellAll(w.pieces) + if escape then [92] else [])
  }

  function TailText(tail: Tail): seq<byte> {
    match tail
    case Blank(n) => Spaces(n)
    case Cut(w, escape) => Spaces(w.spaces) + CutText(w, escape)
  }

  function Written(ws: seq<Word>, tail: Tail): seq<byte> {
    if ws == [] then TailText(tail) else Spaces(ws[0].spaces) + (Text(ws[0]) + Written(ws[1..], tail))
  }

  /** The number of spaces before the first argument, if there is one. */
  function Gap(ws: seq<Word>, tail: Tail): nat {
    if ws != [] then ws[0].spaces else if tail.Cut? then tail.word.spaces else 1
  }

  /** A quoted argument needs no space behind it, another one does. */
  ghost predicate LegalLine(ws: seq<Word>, tail: Tail) {
    if ws == [] then LegalTail(tail)
    else Legal(ws[0]) && (ws[0].quoted || Gap(ws[1..], tail) > 0) && LegalLine(ws[1..], tail)
  }

  function Meanings(ws: seq<Word>, tail: Tail): seq<seq<byte>> {
    if ws != [] then [MeansAll(ws[0].pieces)] + Meanings(ws[1..], tail)
    else if tail.Cut? then [MeansAll(tail.word.pieces)]
    else []
  }

  /** What has been found, with an argument that ends here. */
  function Found(t: Tokens): seq<seq<byte>> {
    if t.state == SS_ARG then t.args + [t.cur] else t.args
  }

  /** Between two arguments. */
  predicate Outside(t: Tokens) {
    t.state == SS_ARG || (t.state == SS_SPACE && t.cur == [])
  }

  /** The first space ends an argument without quotes; further ones are skipped. */
  lemma {:induction false} FeedSpaces(t: Tokens, n: nat, rest: seq<byte>, limit: nat)
    requires Outside(t)
    ensures Feed(t, Spaces(n) + rest, limit) ==
      Feed(if n == 0 || |t.args| >= limit then t else Tokens(Found(t), [], SS_SPACE), rest, limit)
    decreases n
  {
    hide Feed;
    if n == 0 {
      assert Spaces(n) + rest == rest;
    } else if |t.args| >= limit {
      FeedFull(t, rest, limit);
      FeedFull(t, Spaces(n) + rest, limit);
    } else {
      var u := Tokens(Found(t), [], SS_SPACE);
      assert Spaces(n) + rest == [32] + (Spaces(n - 1) + rest);
      FeedOne(t, 32, Spaces(n - 1) + rest, limit);
      FeedSpaces(u, n - 1, rest, limit);
    }
  }

  lemma FeedFull(t: Tokens, s: seq<byte>, limit: nat)
    requires |t.args| >= limit
    ensures Feed(t, s, limit) == t
  {
  }

  /** One piece inside an argument. */
  lemma FeedPiece(t: Tokens, p: Piece, rest: seq<byte>, limit: nat)
    requires |t.args| < limit && t.state in [SS_ARG, SS_QUOTED_ARG] && p != Plain(92)
    requires p != if t.state == SS_ARG then Plain(32) else Plain(34)
    ensures Feed(t, Spell(p) + rest, limit) == Feed(t.(cur := t.cur + Means(p)), rest, limit)
  {
    hide Feed;
    assert t.cur + [] == t.cur;
    match p {
      case Plain(c) => FeedOne(t, c, rest, limit);
      case Pair(c) =>
        PairFirst(92, c, rest);
        FeedOne(t, 92, [c] + rest, limit);
        FeedOne(Step(t, 92), c, rest, limit);
    }
  }

  lemma {:induction false} FeedPieces(t: Tokens, ps: seq<Piece>, rest: seq<byte>, limit: nat)
    requires |t.args| < limit && t.state in [SS_ARG, SS_QUOTED_ARG]
    requires var stop := if t.state == SS_ARG then Plain(32) else Plain(34);
      forall i | 0 <= i < |ps| :: ps[i] != Plain(92) && ps[i] != stop
    ensures Feed(t, SpellAll(ps) + rest, limit) == Feed(t.(cur := t.cur + MeansAll(ps)), rest, limit)
    decreases |ps|
  {
    hide Feed, Spell, Means;
    if ps == [] {
      assert SpellAll(ps) + rest == rest && t.cur + MeansAll(ps) == t.cur;
    } else {
      Associative(Spell(ps[0]), SpellAll(ps[1..]), rest);
      FeedPiece(t, ps[0], SpellAll(ps[1..]) + rest, limit);
      FeedPieces(t.(cur := t.cur + Means(ps[0])), ps[1..], rest, limit);
      Associative(t.cur, Means(ps[0]), MeansAll(ps[1..]));
    }
  }

  /** The first piece of an argument without quotes begins it. */
  lemma FeedBegin(args: seq<seq<byte>>, p: Piece, rest: seq<byte>, limit: nat)
    requires |args| < limit && p != Plain(92) && p != Plain(34) && p != Plain(32)
    ensures Feed(Tokens(args, [], SS_SPACE), Spell(p) + rest, limit) ==
            Feed(Tokens(args, Means(p), SS_ARG), rest, limit)
  {
    hide Feed;
    var t := Tokens(args, [], SS_SPACE);
    match p {
      case Plain(c) => FeedOne(t, c, rest, limit);
      case Pair(c) =>
        assert [] + [c] == [c];
        PairFirst(92, c, rest);
        FeedOne(t, 92, [c] + rest, limit);
        FeedOne(Step(t, 92), c, rest, limit);
    }
  }

  /** One argument: a quoted one is complete with its second quote, another one with the space behind it. */
  lemma FeedWord(args: seq<seq<byte>>, w: Word, rest: seq<byte>, limit: nat)
    requires |args| < limit && Legal(w)
    ensures Feed(Tokens(args, [], SS_SPACE), Text(w) + rest, limit) ==
            Feed(if w.quoted then Tokens(args + [MeansAll(w.pieces)], [], SS_SPACE)
                 else Tokens(args, MeansAll(w.pieces), SS_ARG), rest, limit)
  {
    hide Feed, Spell, Means;
    var t := Tokens(args, [], SS_SPACE);
    var all := MeansAll(w.pieces);
    if w.quoted {
      var inner := SpellAll(w.pieces);
      Associative([34], inner + [34], rest);
      Associative(inner, [34], rest);
      FeedOne(t, 34, inner + ([34] + rest), limit);
      FeedPieces(Tokens(args, [], SS_QUOTED_ARG), w.pieces, [34] + rest, limit);
      assert [] + all == all;
      FeedOne(Tokens(args, all, SS_QUOTED_ARG), 34, rest, limit);
    } else {
      Associative(Spell(w.pieces[0]), SpellAll(w.pieces[1..]), rest);
      FeedBegin(args, w.pieces[0], SpellAll(w.pieces[1..]) + rest, limit);
      FeedPieces(Tokens(args, Means(w.pieces[0]), SS_ARG), w.pieces[1..], rest, limit);
    }
  }

  /** An argument that the line ends in: a backslash at the end is dropped. */
  lemma FeedCut(args: seq<seq<byte>>, w: Word, escape: bool, limit: nat)
    requires |args| < limit && LegalTail(Cut(w, escape))
    ensures Final(Feed(Tokens(args, [], SS_SPACE), CutText(w, escape), limit), limit) == args + [MeansAll(w.pieces)]
  {
    hide Feed, Spell, Means;
    var t := Tokens(args, [], SS_SPACE);
    var all := MeansAll(w.pieces);
    var rest: seq<byte> := if escape then [92] else [];
    assert [] + all == all && [] + (SpellAll(w.pieces) + rest) == SpellAll(w.pieces) + rest;
    if w.quoted {
      FeedOne(t, 34, SpellAll(w.pieces) + rest, limit);
      FeedPieces(Tokens(args, [], SS_QUOTED_ARG), w.pieces, rest, limit);
      FeedEnd(Tokens(args, all, SS_QUOTED_ARG), escape, limit);
    } else if w.pieces == [] {
      assert SpellAll(w.pieces) + rest == rest;
      FeedEnd(t, escape, limit);
    } else {
      Associative(Spell(w.pieces[0]), SpellAll(w.pieces[1..]), rest);
      FeedBegin(args, w.pieces[0], SpellAll(w.pieces[1..]) + rest, limit);
      FeedPieces(Tokens(args, Means(w.pieces[0]), SS_ARG), w.pieces[1..], rest, limit);
      FeedEnd(Tokens(args, all, SS_ARG), escape, limit);
    }
  }

  lemma FeedEnd(t: Tokens, escape: bool, limit: nat)
    requires |t.args| < limit && t.state in [SS_SPACE, SS_ARG, SS_QUOTED_ARG]
    requires t.state == SS_SPACE ==> escape && t.cur == []
    ensures Final(Feed(t, if escape then [92] else [], limit), limit) == t.args + [t.cur]
  {
    if escape {
      assert [92] + [] == [92];
      FeedOne(t, 92, [], limit);
      FeedNone(Step(t, 92), limit);
    }
  }

  lemma FeedTail(t: Tokens, tail: Tail, limit: nat)
    requires Outside(t) && LegalTail(tail) && |Found(t)| + |Meanings([], tail)| <= limit
    requires t.state == SS_ARG ==> Gap([], tail) > 0
    ensures Final(Feed(t, TailText(tail), limit), limit) == Found(t) + Meanings([], tail)
  {
    hide Feed, LegalTail, MeansAll;
    match tail {
      case Blank(n) =>
        assert Spaces(n) + [] == Spaces(n) && Found(t) + [] == Found(t);
        FeedSpaces(t, n, [], limit);
        FeedNone(t, limit);
        FeedNone(Tokens(Found(t), [], SS_SPACE), limit);
      case Cut(w, escape) =>
        FeedSpaces(t, w.spaces, CutText(w, escape), limit);
        FeedCut(Found(t), w, escape, limit);
    }
  }

  lemma {:induction false} FeedWords(t: Tokens, ws: seq<Word>, tail: Tail, limit: nat)
    requires Outside(t) && |Found(t)| + |Meanings(ws, tail)| <= limit && LegalLine(ws, tail)
    requires t.state == SS_ARG ==> Gap(ws, tail) > 0
    ensures Final(Feed(t, Written(ws, tail), limit), limit) == Found(t) + Meanings(ws, tail)
    decreases |ws|
  {
    hide Feed, Legal, LegalTail, TailText, MeansAll, Text, Spaces, Final;
    if ws == [] {
      FeedTail(t, tail, limit);
    } else {
      var w, rest := ws[0], Written(ws[1..], tail);
      var a := MeansAll(w.pieces);
      FeedSpaces(t, w.spaces, Text(w) + rest, limit);
      FeedWord(Found(t), w, rest, limit);
      FeedWords(if w.quoted then Tokens(Found(t) + [a], [], SS_SPACE) else Tokens(Found(t), a, SS_ARG),
                ws[1..], tail, limit);
      assert Found(t) + ([a] + Meanings(ws[1..], tail)) == Found(t) + [a] + Meanings(ws[1..], tail);
    }
  }

  /** A line that is made up of arguments in these forms is split into what they mean, up to the limit. */
  lemma SplitLine(ws: seq<Word>, tail: Tail, limit: nat)
    requires LegalLine(ws, tail)
    ensures var all := Meanings(ws, tail);
      Split(Written(ws, tail), limit) == if |all| <= limit then all else all[..limit]
  {
    hide Feed, LegalLine, Meanings;
    var more := Max(limit, |Meanings(ws, tail)|);
    FeedWords(START, ws, tail, more);
    assert [] + Meanings(ws, tail) == Meanings(ws, tail);
    SplitTruncated(Written(ws, tail), limit, more);
  }

  /** The pieces that the first k characters spell, up to where the argument or the line ends. */
  ghost predicate Taken(s: seq<byte>, quoted: bool, ps: seq<Piece>, k: nat) {
    var stop := if quoted then 34 else 32;
    && k <= |s| && SpellAll(ps) == s[..k]
    && (forall i | 0 <= i < |ps| :: ps[i] != Plain(92) && ps[i] != Plain(stop))
    && (if k == 0 then ps == [] else ps != [] && (ps[0] == Plain(s[0]) || ps[0].Pair?))
    && (k < |s| ==> if s[k] == 92 then k + 1 == |s| else s[k] == stop)
  }

  lemma {:induction false} TakePieces(s: seq<byte>, quoted: bool) returns (ps: seq<Piece>, k: nat)
    ensures k <= |s| && Taken(s, quoted, ps, k)
    decreases |s|
  {
    hide SpellAll, Taken;
    ps, k := [], 0;
    if s != [] && s[0] == 92 && |s| > 1 {
      ps, k := TakePieces(s[2..], quoted);
      TakenMore(s, quoted, Pair(s[1]), ps, k);
      ps, k := [Pair(s[1])] + ps, k + 2;
    } else if s != [] && s[0] != 92 && s[0] != if quoted then 34 else 32 {
      ps, k := TakePieces(s[1..], quoted);
      TakenMore(s, quoted, Plain(s[0]), ps, k);
      ps, k := [Plain(s[0])] + ps, k + 1;
    } else {
      TakenNone(s, quoted);
    }
  }

  lemma TakenNone(s: seq<byte>, quoted: bool)
    requires s == [] || s == [92] || s[0] == if quoted then 34 else 32
    ensures Taken(s, quoted, [], 0)
  {
  }

  lemma TakenMore(s: seq<byte>, quoted: bool, p: Piece, ps: seq<Piece>, k: nat)
    requires p != Plain(92) && p != Plain(if quoted then 34 else 32)
    requires Spell(p) <= s && Taken(s[|Spell(p)|..], quoted, ps, k)
    ensures Taken(s, quoted, [p] + ps, k + |Spell(p)|)
  {
    var n := |Spell(p)|;
    assert ([p] + ps)[1..] == ps && s[..k + n] == Spell(p) + s[n..][..k];
  }

  lemma OneSpace(ws: seq<Word>, tail: Tail) returns (us: seq<Word>, end: Tail)
    requires LegalLine(ws, tail)
    ensures LegalLine(us, end) && Gap(us, end) > 0 && Written(us, end) == [32] + Written(ws, tail)
  {
    hide Legal, Text;
    us, end := ws, tail;
    if ws != [] {
      us := [ws[0].(spaces := ws[0].spaces + 1)] + ws[1..];
      SameWord(ws[0], us[0]);
      assert us[1..] == ws[1..];
      Associative([32], Spaces(ws[0].spaces), Text(ws[0]) + Written(ws[1..], tail));
    } else if tail.Cut? {
      end := tail.(word := tail.word.(spaces := tail.word.spaces + 1));
      SameWord(tail.word, end.word);
    } else {
      end := Blank(tail.n + 1);
    }
  }

  lemma SameWord(w: Word, u: Word)
    requires u.quoted == w.quoted && u.pieces == w.pieces
    ensures Legal(u) == Legal(w) && Text(u) == Text(w)
  {
  }

  lemma WordInQuotes(s: seq<byte>, ps: seq<Piece>, k: nat)
    requires s != [] && s[0] == 34 && Taken(s[1..], true, ps, k)
    ensures var w := Word(0, true, ps);
      if k + 1 < |s| && s[k + 1] == 34 then Legal(w) && s == Text(w) + s[k + 2..]
      else LegalTail(Cut(w, k + 1 < |s|)) && s == CutText(w, k + 1 < |s|)
  {
    var r := s[1..];
    if k + 1 < |s| && s[k + 1] == 34 {
      assert s == [34] + (r[..k] + [34]) + s[k + 2..];
    } else if k + 1 < |s| {
      assert s == [34] + (r[..k] + [92]);
    } else {
      assert r[..k] + [] == r[..k] && s == [34] + r[..k];
    }
  }

  lemma WordWithout(s: seq<byte>, ps: seq<Piece>, k: nat)
    requires s != [] && s[0] != 34 && s[0] != 32 && Taken(s, false, ps, k)
    ensures var w := Word(0, false, ps);
      if k < |s| && s[k] == 92 then LegalTail(Cut(w, true)) && s == CutText(w, true)
      else k > 0 && Legal(w) && s == Text(w) + s[k..] && (k < |s| ==> s[k] == 32)
  {
    if k < |s| && s[k] == 92 {
      assert s == s[..k] + [92] && [] + (s[..k] + [92]) == s[..k] + [92];
    } else {
      assert s == s[..k] + s[k..];
    }
  }

  /** And every line is made up in this way. */
  lemma {:induction false} EveryLine(s: seq<byte>) returns (ws: seq<Word>, tail: Tail)
    ensures LegalLine(ws, tail) && Written(ws, tail) == s
    ensures s == [] || s[0] == 32 ==> Gap(ws, tail) > 0
    decreases |s|
  {
    hide LegalLine, Written, Gap, Legal, LegalTail, Taken, Text, CutText;
    if s == [] {
      ws, tail := [], Blank(0);
      LastWord(tail);
    } else if s[0] == 32 {
      ws, tail := EveryLine(s[1..]);
      ws, tail := OneSpace(ws, tail);
    } else if s[0] == 34 {
      var ps, k := TakePieces(s[1..], true);
      WordInQuotes(s, ps, k);
      if k + 1 < |s| && s[k + 1] == 34 {
        ws, tail := EveryLine(s[k + 2..]);
        MoreWords(Word(0, true, ps), ws, tail);
        ws := [Word(0, true, ps)] + ws;
      } else {
        ws, tail := [], Cut(Word(0, true, ps), k + 1 < |s|);
        LastWord(tail);
      }
    } else {
      var ps, k := TakePieces(s, false);
      WordWithout(s, ps, k);
      if k < |s| && s[k] == 92 {
        ws, tail := [], Cut(Word(0, false, ps), true);
        LastWord(tail);
      } else {
        ws, tail := EveryLine(s[k..]);
        MoreWords(Word(0, false, ps), ws, tail);
        ws := [Word(0, false, ps)] + ws;
      }
    }
  }

  lemma LastWord(tail: Tail)
    requires tail.Cut? ==> LegalTail(tail) && tail.word.spaces == 0
    requires tail.Blank? ==> tail.n == 0
    ensures LegalLine([], tail) && (tail == Blank(0) ==> Gap([], tail) > 0)
    ensures Written([], tail) == if tail.Blank? then [] else CutText(tail.word, tail.escape)
  {
    hide CutText, Legal;
    if tail.Cut? {
      assert [] + CutText(tail.word, tail.escape) == CutText(tail.word, tail.escape);
    }
  }

  lemma MoreWords(w: Word, ws: seq<Word>, tail: Tail)
    requires Legal(w) && w.spaces == 0 && LegalLine(ws, tail) && (w.quoted || Gap(ws, tail) > 0)
    ensures LegalLine([w] + ws, tail) && Written([w] + ws, tail) == Text(w) + Written(ws, tail)
  {
    hide Legal, Text;
    assert ([w] + ws)[1..] == ws;
    assert [] + (Text(w) + Written(ws, tail)) == Text(w) + Written(ws, tail);
  }

  // ---------------------------------------------------------------- splitting in place

  /** The arguments in memory, each with its terminator. */
  function Packed(args: seq<seq<byte>>): seq<byte> {
    if args == [] then [] else Packed(args[..|args| - 1]) + (args[|args| - 1] + [0])
  }

  lemma PackedSnoc(args: seq<seq<byte>>, a: seq<byte>)
    ensures Packed(args + [a]) == Packed(args) + (a + [0])
  {
    assert (args + [a])[..|args|] == args;
  }

  /** `argv` points to the packed arguments. */
  ghost predicate Points(argv: seq<Option<nat>>, args: seq<seq<byte>>) {
    |args| <= |argv| && forall k | 0 <= k < |args| :: argv[k] == Some(|Packed(args[..k])|)
  }

  /** `p` points to the zero-terminated string `a`. */
  ghost predicate StringAt(line: seq<byte>, p: nat, a: seq<byte>) {
    p + |a| < |line| && line[p..p + |a|] == a && line[p + |a|] == 0 && 0 !in a
  }

  ghost predicate NulFree(args: seq<seq<byte>>) {
    forall k | 0 <= k < |args| :: 0 !in args[k]
  }

  /** Packed arguments are strings that the pointers name. */
  lemma {:induction false} PackedStrings(line: seq<byte>, args: seq<seq<byte>>, k: nat)
    requires Packed(args) <= line && NulFree(args) && k < |args|
    ensures StringAt(line, |Packed(args[..k])|, args[k])
    decreases |args|
  {
    var n := |args| - 1;
    var front := args[..n];
    if k == n {
      assert line[|Packed(front)|..|Packed(args)|] == args[n] + [0];
    } else {
      assert front[..k] == args[..k];
      PackedStrings(line, front, k);
    }
  }

  /** What has been written after the complete arguments and the part of the current one. */
  function Memory(t: Tokens): seq<byte> {
    Packed(t.args) + t.cur
  }

  ghost predicate Clean(t: Tokens) {
    NulFree(t.args) && 0 !in t.cur && (t.state == SS_SPACE ==> t.cur == [])
  }

  /** The switch over the state: the next state, the character to write or -1, and whether an argument
      starts or ends. */
  method Switch(state: State, c: byte, ghost t: Tokens) returns (next: State, charOut: int, starts: bool, ends: bool)
    requires t.state == state && Clean(t) && c != 0
    ensures -1 <= charOut < 256
    ensures Step(t, c).state == next && Clean(Step(t, c))
    ensures Memory(Step(t, c)) == Memory(t) + if charOut >= 0 then [charOut] else []
    ensures Step(t, c).args == if ends then t.args + [t.cur] else t.args
    ensures ends ==> next == SS_SPACE && state != SS_SPACE
    ensures starts <==> state == SS_SPACE && next != SS_SPACE
    ensures starts ==> t.cur == []
  {
    hide Packed;
    PackedSnoc(t.args, t.cur);
    next, charOut, starts, ends := state, -1, false, false;
    match state {
      case SS_SPACE =>
        if c == SPACE {
        } else if c == QUOTE {
          starts, next := true, SS_QUOTED_ARG;
        } else if c == ESCAPE {
          starts, next := true, SS_ARG_ESCAPED;
        } else {
          starts, next, charOut := true, SS_ARG, c;
        }
      case SS_QUOTED_ARG =>
        if c == QUOTE {
          charOut, ends, next := 0, true, SS_SPACE;
        } else if c == ESCAPE {
          next := SS_QUOTED_ARG_ESCAPED;
        } else {
          charOut := c;
        }
      case SS_ARG =>
        if c == SPACE {
          charOut, ends, next := 0, true, SS_SPACE;
        } else if c == ESCAPE {
          next := SS_ARG_ESCAPED;
        } else {
          charOut := c;
        }
      case _ =>
        if c == ESCAPE || c == QUOTE || c == SPACE {
          charOut := c;
        }
        next := if state == SS_ARG_ESCAPED then SS_ARG else SS_QUOTED_ARG;
    }
  }

  /** Writes behind the memory in use, before the characters still to be read. */
  method Put(line: array<byte>, at: nat, c: byte, ghost rest: nat)
    requires at < rest <= line.Length
    modifies line
    ensures line[..at + 1] == old(line[..at]) + [c] && line[rest..] == old(line[rest..])
  {
    line[at] := c;
  }

  /** A zero-terminated line before it is split. */
  ghost predicate Line(line: seq<byte>, n: nat) {
    n < |line| && line[n] == 0 && 0 !in line[..n]
  }

  /** The loop over the line: the characters before `inPtr` have become the memory up to `outPtr`. */
  ghost predicate Scanned(was: seq<byte>, n: nat, limit: nat, t: Tokens, line: seq<byte>, inPtr: nat, outPtr: nat)
    requires Line(was, n)
  {
    && outPtr <= inPtr <= n && |line| == |was| && line[inPtr..] == was[inPtr..]
    && Feed(t, was[..n][inPtr..], limit) == Feed(START, was[..n], limit)
    && Clean(t) && line[..outPtr] == Memory(t)
  }

  method Scan(line: array<byte>, argv: array<Option<nat>>, ghost n: nat)
    returns (argc: nat, state: State, nextArgStart: nat, outPtr: nat, ghost t: Tokens, ghost read: nat)
    requires argv.Length > 0 && Line(line[..], n)
    modifies line, argv
    ensures Scanned(old(line[..]), n, argv.Length - 1, t, line[..], read, outPtr)
    ensures argc == argv.Length - 1 || read == n
    ensures t.state == state && |t.args| == argc < argv.Length && Points(argv[..], t.args)
    ensures state != SS_SPACE ==> nextArgStart == |Packed(t.args)|
  {
    hide Packed, Step, Feed, Points, Clean;
    ghost var was := line[..];
    Started(was, n, argv.Length - 1, argv[..]);
    t := START;
    state := SS_SPACE;
    argc := 0;
    var inPtr := 0;
    nextArgStart, outPtr, read := 0, 0, 0;
    while argc < argv.Length - 1
      invariant Scanned(was, n, argv.Length - 1, t, line[..], inPtr, outPtr) && read == inPtr
      invariant t.state == state && |t.args| == argc < argv.Length
      invariant state != SS_SPACE ==> nextArgStart == |Packed(t.args)|
      invariant Points(argv[..], t.args)
      decreases n - inPtr
    {
      var c := line[inPtr];
      SameRest(line[..], was, inPtr, n);
      if c == 0 {
        break;
      }
      Consumed(was, n, argv.Length - 1, t, inPtr);
      var charOut, starts, ends;
      ghost var before := t;
      state, charOut, starts, ends := Switch(state, c, t);
      t := Step(t, c);
      if starts {
        nextArgStart := outPtr;
      }
      if ends {
        PointsSnoc(argv[..], before.args, before.cur);
        argv[argc] := Some(nextArgStart);
        argc := argc + 1;
      }
      inPtr := inPtr + 1;
      read := inPtr;
      Shorter(line[..], was, inPtr);
      if charOut >= 0 {
        Put(line, outPtr, charOut, inPtr);
        outPtr := outPtr + 1;
      }
    }
  }

  lemma Started(line: seq<byte>, n: nat, limit: nat, argv: seq<Option<nat>>)
    requires Line(line, n)
    ensures Scanned(line, n, limit, START, line, 0, 0) && Points(argv, []) && |Packed([])| == 0
  {
    assert line[..n][0..] == line[..n];
  }

  lemma Consumed(was: seq<byte>, n: nat, limit: nat, t: Tokens, i: nat)
    requires Line(was, n) && i < n && |t.args| < limit
    ensures Feed(t, was[..n][i..], limit) == Feed(Step(t, was[i]), was[..n][i + 1..], limit)
  {
    hide Step;
    assert was[..n][i..][1..] == was[..n][i + 1..];
  }

  lemma Shorter(line: seq<byte>, was: seq<byte>, i: nat)
    requires 0 < i <= |line| == |was| && line[i - 1..] == was[i - 1..]
    ensures line[i..] == was[i..]
  {
    assert line[i - 1..][1..] == line[i..] && was[i - 1..][1..] == was[i..];
  }

  lemma SameRest(line: seq<byte>, was: seq<byte>, i: nat, n: nat)
    requires i <= n < |line| == |was| && line[i..] == was[i..] && was[n] == 0 && 0 !in was[..n]
    ensures line[i] == was[i] && (line[i] == 0 <==> i == n)
  {
    assert line[i..][0] == was[i..][0];
    assert i < n ==> was[..n][i] == was[i];
  }

  lemma PointsSnoc(argv: seq<Option<nat>>, args: seq<seq<byte>>, a: seq<byte>)
    requires Points(argv, args) && |args| < |argv|
    ensures Points(argv[|args| := Some(|Packed(args)|)], args + [a])
  {
    hide Packed;
    var all := args + [a];
    forall k | 0 <= k < |all|
      ensures argv[|args| := Some(|Packed(args)|)][k] == Some(|Packed(all[..k])|)
    {
      assert all[..k] == args[..k];
      assert k == |args| ==> args[..k] == args;
    }
  }

  lemma FeedDone(t: Tokens, s: seq<byte>, limit: nat)
    requires s == [] || |t.args| >= limit
    ensures Feed(t, s, limit) == t
  {
  }

  /** esp_console_split_argv.  The line, zero-terminated at n, is split in place; argv gets the pointers to
      its arguments and a null pointer behind them. */
  method SplitInPlace(line: array<byte>, argv: array<Option<nat>>, ghost n: nat) returns (argc: nat)
    requires argv.Length > 0 && Line(line[..], n)
    modifies line, argv
    ensures var args := Split(old(line[..n]), argv.Length - 1);
      && argc == |args| < argv.Length
      && (forall k | 0 <= k < argc :: argv[k].Some? && StringAt(line[..], argv[k].value, args[k]))
      && argv[argc] == None
  {
    hide Feed, Packed, Points, StringAt, NulFree;
    ghost var was := line[..];
    var state, nextArgStart, outPtr;
    ghost var t, read;
    argc, state, nextArgStart, outPtr, t, read := Scan(line, argv, n);
    assert was[..n] == old(line[..n]);
    FeedDone(t, was[..n][read..], argv.Length - 1);
    PackedSnoc(t.args, t.cur);
    PointsSnoc(argv[..], t.args, t.cur);
    NulFreeSnoc(t.args, t.cur);
    ghost var args := if state != SS_SPACE && argc < argv.Length - 1 then t.args + [t.cur] else t.args;
    line[outPtr] := 0;
    assert line[..outPtr] == Memory(t) && line[..outPtr + 1] == Memory(t) + [0];
    if state != SS_SPACE && argc < argv.Length - 1 {
      argv[argc] := Some(nextArgStart);
      argc := argc + 1;
    }
    ghost var named := argv[..];
    argv[argc] := None;
    PointsPrefix(named, argv[..], args);
    AllStrings(line[..], argv[..], args);
  }

  lemma PointsPrefix(argv: seq<Option<nat>>, now: seq<Option<nat>>, args: seq<seq<byte>>)
    requires Points(argv, args) && |args| <= |now| && now[..|args|] == argv[..|args|]
    ensures Points(now, args)
  {
    forall k | 0 <= k < |args|
      ensures now[k] == argv[k]
    {
      assert now[..|args|][k] == argv[..|args|][k];
    }
  }

  lemma NulFreeSnoc(args: seq<seq<byte>>, a: seq<byte>)
    requires NulFree(args) && 0 !in a
    ensures NulFree(args + [a])
  {
  }

  lemma AllStrings(line: seq<byte>, argv: seq<Option<nat>>, args: seq<seq<byte>>)
    requires Packed(args) <= line && NulFree(args) && Points(argv, args)
    ensures forall k | 0 <= k < |args| :: argv[k].Some? && StringAt(line, argv[k].value, args[k])
  {
    forall k | 0 <= k < |args|
      ensures argv[k].Some? && StringAt(line, argv[k].value, args[k])
    {
      PackedStrings(line, args, k);
    }
  }

  // ---------------------------------------------------------------- written and split

  /** Special characters are written behind a backslash; inside quotes a space is not special. */
  function PieceOf(c: byte, quoted: bool): Piece {
    if c == 92 || c == 34 || (c == 32 && !quoted) then Pair(c) else Plain(c)
  }

  function Pieces(a: seq<byte>, quoted: bool): seq<Piece> {
    if a == [] then [] else [PieceOf(a[0], quoted)] + Pieces(a[1..], quoted)
  }

  function WordsOf(args: seq<seq<byte>>, quoted: seq<bool>, spaces: nat): (ws: seq<Word>)
    requires |quoted| == |args|
    ensures |ws| == |args| && (ws != [] ==> ws[0].spaces == spaces)
  {
    if args == [] then []
    else [Word(spaces, quoted[0], Pieces(args[0], quoted[0]))] + WordsOf(args[1..], quoted[1..], 1)
  }

  /** A command line with arguments in quotes or without, and spaces between them. */
  function CommandLine(args: seq<seq<byte>>, quoted: seq<bool>): seq<byte>
    requires |quoted| == |args|
  {
    Written(WordsOf(args, quoted, 0), Blank(0))
  }

  lemma {:induction false} PiecesMean(a: seq<byte>, quoted: bool)
    ensures MeansAll(Pieces(a, quoted)) == a
  {
    if a != [] {
      hide Means, PieceOf, MeansAll;
      var p := PieceOf(a[0], quoted);
      PiecesMean(a[1..], quoted);
      PieceMeans(a[0], quoted);
      PiecesCons(p, Pieces(a[1..], quoted));
      assert [a[0]] + a[1..] == a;
    }
  }

  lemma PieceMeans(c: byte, quoted: bool)
    ensures Means(PieceOf(c, quoted)) == [c] && (c != 0 ==> 0 !in Spell(PieceOf(c, quoted)))
  {
  }

  lemma {:induction false} PiecesAt(a: seq<byte>, quoted: bool)
    ensures |Pieces(a, quoted)| == |a|
    ensures forall i | 0 <= i < |a| :: Pieces(a, quoted)[i] == PieceOf(a[i], quoted)
  {
    hide PieceOf;
    if a != [] {
      PiecesAt(a[1..], quoted);
    }
  }

  lemma {:induction false} PiecesNulFree(a: seq<byte>, quoted: bool)
    requires 0 !in a
    ensures 0 !in SpellAll(Pieces(a, quoted))
  {
    hide PieceOf, Spell;
    if a != [] {
      PiecesNulFree(a[1..], quoted);
      PieceMeans(a[0], quoted);
      PiecesCons(PieceOf(a[0], quoted), Pieces(a[1..], quoted));
    }
  }

  lemma PiecesCons(p: Piece, ps: seq<Piece>)
    ensures MeansAll([p] + ps) == Means(p) + MeansAll(ps) && SpellAll([p] + ps) == Spell(p) + SpellAll(ps)
  {
    assert ([p] + ps)[1..] == ps;
  }

  lemma PiecesLegal(a: seq<byte>, quoted: bool, spaces: nat)
    requires quoted || a != []
    ensures Legal(Word(spaces, quoted, Pieces(a, quoted)))
  {
    PiecesAt(a, quoted);
    hide Pieces;
  }

  lemma {:induction false} WordsMean(args: seq<seq<byte>>, quoted: seq<bool>, spaces: nat)
    requires |quoted| == |args| && forall i | 0 <= i < |args| :: quoted[i] || args[i] != []
    ensures var ws := WordsOf(args, quoted, spaces); LegalLine(ws, Blank(0)) && Meanings(ws, Blank(0)) == args
    decreases |args|
  {
    hide MeansAll, Pieces, Legal, Means, PieceOf;
    if args != [] {
      PiecesMean(args[0], quoted[0]);
      PiecesLegal(args[0], quoted[0], spaces);
      WordsMean(args[1..], quoted[1..], 1);
    }
  }

  /** Writing any arguments in quotes, or unless empty without, with spaces between them, and splitting the line gives
      them back. */
  lemma WriteSplit(args: seq<seq<byte>>, quoted: seq<bool>, limit: nat)
    requires |quoted| == |args| <= limit
    requires forall i | 0 <= i < |args| :: quoted[i] || args[i] != []
    ensures Split(CommandLine(args, quoted), limit) == args
  {
    hide Split, Written, LegalLine, Meanings, WordsOf;
    WordsMean(args, quoted, 0);
    SplitLine(WordsOf(args, quoted, 0), Blank(0), limit);
  }

  lemma {:induction false} SpacesNulFree(n: nat)
    ensures 0 !in Spaces(n)
  {
    if n > 0 {
      SpacesNulFree(n - 1);
    }
  }

  lemma {:induction false} WordsNulFree(args: seq<seq<byte>>, quoted: seq<bool>, spaces: nat)
    requires |quoted| == |args| && NulFree(args)
    ensures 0 !in Written(WordsOf(args, quoted, spaces), Blank(0))
    decreases |args|
  {
    hide Spaces, SpellAll, Pieces;
    SpacesNulFree(0);
    SpacesNulFree(spaces);
    if args != [] {
      PiecesNulFree(args[0], quoted[0]);
      WordsNulFree(args[1..], quoted[1..], 1);
    }
  }

  /** The line written for arguments without a zero has none either. */
  lemma LineNulFree(args: seq<seq<byte>>, quoted: seq<bool>)
    requires |quoted| == |args| && NulFree(args)
    ensures 0 !in CommandLine(args, quoted)
  {
    WordsNulFree(args, quoted, 0);
  }

  /** A line that has been written for some arguments and lies zero-terminated in memory is split in place into
      just these, and each pointer names one of them. */
  method SplitWritten(args: seq<seq<byte>>, quoted: seq<bool>, line: array<byte>, argv: array<Option<nat>>)
    returns (argc: nat)
    requires |quoted| == |args| < argv.Length && NulFree(args)
    requires forall i | 0 <= i < |args| :: quoted[i] || args[i] != []
    requires CommandLine(args, quoted) + [0] <= line[..]
    modifies line, argv
    ensures argc == |args| && argv[argc] == None
    ensures forall k | 0 <= k < |args| :: argv[k].Some? && StringAt(line[..], argv[k].value, args[k])
  {
    hide CommandLine, Split, StringAt, NulFree;
    LineNulFree(args, quoted);
    WriteSplit(args, quoted, argv.Length - 1);
    ghost var n := |CommandLine(args, quoted)|;
    WrittenLine(line[..], CommandLine(args, quoted));
    assert line[..n] == line[..][..n];
    argc := SplitInPlace(line, argv, n);
  }

  lemma WrittenLine(line: seq<byte>, text: seq<byte>)
    requires text + [0] <= line && 0 !in text
    ensures Line(line, |text|) && line[..|text|] == text
  {
    assert line[..|text|] == text && line[|text|] == (text + [0])[|text|];
  }
}
