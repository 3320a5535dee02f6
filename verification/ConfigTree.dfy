/** Structured configurations: their text, the ranges they declare, and the proof that the scanner
    finds exactly those (parse_config in src/getdata.c). */
module ConfigTree {
  import opened Address
  import opened Pools
  import opened Scanner

  /** A stretch of a statement after its first word. */
  datatype Piece = Plain(text: string) | Quoted(text: string)

  datatype Item =
    | Blank(space: string)
    | Comment(text: string)
    | Bare(word: string)
    | Statement(word: string, gap: string, rest: seq<Piece>)
    | Block(word: string, gap: string, rest: seq<Piece>, body: Items)
    | SharedNetwork(word: string, gap: string, name: Piece, gap2: string, body: Items)
    | RangeOfTwo(word: string, gap: string, flags: seq<(string, string)>, a: string, gap2: string, b: string)
    | RangeOfOne(word: string, gap: string, flags: seq<(string, string)>, a: string, after: char)
    | Include(word: string, gap: string, file: Piece, after: char)

  datatype Items = Nil | Cons(head: Item, tail: Items)

  // ----- the text -----

  function PieceText(p: Piece): string {
    match p
    case Plain(t) => t
    case Quoted(t) => "\"" + t + "\""
  }

  function PiecesText(ps: seq<Piece>): string {
    if ps == [] then "" else PieceText(ps[0]) + PiecesText(ps[1..])
  }

  function FlagsText(fs: seq<(string, string)>): string {
    if fs == [] then "" else fs[0].0 + fs[0].1 + FlagsText(fs[1..])
  }

  function ItemText(i: Item): string {
    match i
    case Blank(space) => space
    case Comment(text) => "#" + text + "\n"
    case Bare(word) => word + ";"
    case Statement(word, gap, rest) => word + gap + PiecesText(rest) + ";"
    case Block(word, gap, rest, body) => word + gap + PiecesText(rest) + "{" + Text(body) + "}"
    case SharedNetwork(word, gap, name, gap2, body) =>
      word + gap + PieceText(name) + gap2 + "{" + Text(body) + "}"
    case RangeOfTwo(word, gap, flags, a, gap2, b) => word + gap + FlagsText(flags) + a + gap2 + b + ";"
    case RangeOfOne(word, gap, flags, a, after) => word + gap + FlagsText(flags) + a + ";" + [after]
    case Include(word, gap, file, after) => word + gap + PieceText(file) + ";" + [after]
  }

  function Text(items: Items): string {
    match items
    case Nil => ""
    case Cons(head, tail) => ItemText(head) + Text(tail)
  }

  // ----- well-formedness -----

  predicate IsBlank(c: char) {
    c in {' ', '\t', '\n', '\U{B}', '\U{C}', '\r'}
  }

  lemma BlankIsSpace(c: char)
    ensures IsBlank(c) <==> IsSpace(c)
  {
  }

  predicate AllSpace(s: string) {
    forall c | c in s :: IsBlank(c)
  }

  predicate Gap(s: string) {
    s != "" && AllSpace(s)
  }

  predicate Ordinary(c: char) {
    c !in {'#', '"', ';', '{', '}'}
  }

  /** A word the scanner collects letter by letter. */
  predicate IsWord(w: string) {
    0 < |w| < 1024 && forall c | c in w :: Ordinary(c) && !IsBlank(c)
  }

  predicate GoodPiece(p: Piece) {
    match p
    case Plain(t) => forall c | c in t :: Ordinary(c)
    case Quoted(t) => '"' !in t
  }

  predicate GoodPieces(ps: seq<Piece>) {
    forall p | p in ps :: GoodPiece(p)
  }

  /** A network name: a word, or a quoted string that does not start with a blank. */
  predicate GoodName(p: Piece) {
    match p
    case Plain(t) => IsWord(t)
    case Quoted(t) => 0 < |t| < 1024 && !IsBlank(t[0]) && '"' !in t && '#' !in t
  }

  predicate GoodFlags(e: Env, fs: seq<(string, string)>) {
    forall f | f in fs :: IsWord(f.0) && Gap(f.1) && e.Parse(f.0) == None
  }

  predicate IsAddress(e: Env, w: string) {
    IsWord(w) && e.Parse(w).Some?
  }

  /** A first word the scanner pays no attention to. */
  ghost predicate Uninteresting(w: string) {
    !Occurs("range", w) && !Occurs("shared-network", w) && !Occurs("include", w)
  }

  ghost predicate AnnouncesNetwork(w: string) {
    Occurs("shared-network", w) && !Occurs("range", w)
  }

  ghost predicate AnnouncesFile(w: string) {
    Occurs("include", w) && !Occurs("range", w) && !Occurs("shared-network", w)
  }

  ghost predicate GoodItem(e: Env, i: Item, top: bool) {
    match i
    case Blank(space) => AllSpace(space)
    case Comment(text) => '\n' !in text
    case Bare(word) => IsWord(word)
    case Statement(word, gap, rest) => IsWord(word) && Uninteresting(word) && Gap(gap) && GoodPieces(rest)
    case Block(word, gap, rest, body) =>
      IsWord(word) && Uninteresting(word) && Gap(gap) && GoodPieces(rest) && Good(e, body, top)
    case SharedNetwork(word, gap, name, gap2, body) =>
      top && IsWord(word) && AnnouncesNetwork(word) && Gap(gap) && GoodName(name) && Gap(gap2) && Good(e, body, false)
    case RangeOfTwo(word, gap, flags, a, gap2, b) =>
      IsWord(word) && Occurs("range", word) && Gap(gap) && GoodFlags(e, flags)
      && IsAddress(e, a) && Gap(gap2) && IsAddress(e, b)
    case RangeOfOne(word, gap, flags, a, after) =>
      IsWord(word) && Occurs("range", word) && Gap(gap) && GoodFlags(e, flags)
      && IsAddress(e, a) && IsBlank(after)
    case Include(word, gap, file, after) =>
      IsWord(word) && AnnouncesFile(word) && Gap(gap) && GoodName(file) && IsBlank(after)
  }

  /** Shared networks occur outside shared networks only. */
  ghost predicate Good(e: Env, items: Items, top: bool) {
    match items
    case Nil => true
    case Cons(head, tail) => GoodItem(e, head, top) && Good(e, tail, top)
  }

  // ----- the meaning -----

  /** A declared range with the smaller address first. */
  function Declared(e: Env, net: nat, a: string, b: string): Range
    requires e.Parse(a).Some? && e.Parse(b).Some?
  {
    var x, y := e.Parse(a).value, e.Parse(b).value;
    Range(net, if x <= y then x else y, if x <= y then y else x, 0, 0, 0)
  }

  function ItemNames(i: Item): seq<string> {
    match i
    case Block(_, _, _, body) => Names(body)
    case SharedNetwork(_, _, name, _, body) => [name.text] + Names(body)
    case _ => []
  }

  /** The shared networks in document order. */
  function Names(items: Items): seq<string> {
    match items
    case Nil => []
    case Cons(head, tail) => ItemNames(head) + Names(tail)
  }

  function ItemFiles(i: Item): seq<string> {
    match i
    case Block(_, _, _, body) => Files(body)
    case SharedNetwork(_, _, _, _, body) => Files(body)
    case Include(_, _, file, _) => [file.text]
    case _ => []
  }

  /** The included files in document order. */
  function Files(items: Items): seq<string> {
    match items
    case Nil => []
    case Cons(head, tail) => ItemFiles(head) + Files(tail)
  }

  function ItemRanges(e: Env, i: Item, top: bool, net: nat, next: nat): seq<Range>
    requires GoodItem(e, i, top)
  {
    match i
    case Block(_, _, _, body) => Ranges(e, body, top, net, next)
    case SharedNetwork(_, _, _, _, body) => Ranges(e, body, false, next, next + 1)
    case RangeOfTwo(_, _, _, a, _, b) => [Declared(e, net, a, b)]
    case RangeOfOne(_, _, _, a, _) => [Declared(e, net, a, a)]
    case _ => []
  }

  /** The ranges in document order, each with the index of its enclosing network; `next` is the index
      of the next shared network. */
  function Ranges(e: Env, items: Items, top: bool, net: nat, next: nat): seq<Range>
    requires Good(e, items, top)
  {
    match items
    case Nil => []
    case Cons(head, tail) =>
      ItemRanges(e, head, top, net, next) + Ranges(e, tail, top, net, next + |ItemNames(head)|)
  }

  // ----- the scanner on pieces of text -----

  /** Between items. */
  predicate Idle(s: Scan) {
    && s.status == Running && s.newclause && !s.comment && !s.oneIpRange && !s.quote
    && s.argument == NOTHING && s.word == ""
  }

  /** Within the rest of an uninteresting statement. */
  predicate Skipping(s: Scan) {
    && s.status == Running && !s.newclause && !s.comment && s.argument == NOTHING && s.word == ""
  }

  lemma {:induction false} RunBlank(e: Env, s: Scan, t: string)
    requires Idle(s) && AllSpace(t)
    ensures Run(e, s, t) == s
    decreases |t|
  {
    if t != "" {
      assert t[0] in t;
      assert Step(e, s, t[0]) == s;
      RunBlank(e, s, t[1..]);
    }
  }

  lemma {:induction false} RunCommentText(e: Env, s: Scan, t: string)
    requires Idle(s.(comment := false)) && s.comment && '\n' !in t
    ensures Run(e, s, t) == s
    decreases |t|
  {
    if t != "" {
      assert Step(e, s, t[0]) == s;
      RunCommentText(e, s, t[1..]);
    }
  }

  /** Letters of a word are collected. */
  lemma {:induction false} RunWord(e: Env, s: Scan, w: string)
    requires s.status == Running && !s.comment && !s.quote && (s.newclause || s.argument != NOTHING)
    requires forall c | c in w :: Ordinary(c) && !IsSpace(c)
    requires |s.word| + |w| < MAXLEN
    ensures Run(e, s, w) == s.(word := s.word + w)
    decreases |w|
  {
    if w != "" {
      assert w[0] in w;
      assert Step(e, s, w[0]) == s.(word := s.word + [w[0]]);
      RunWord(e, s.(word := s.word + [w[0]]), w[1..]);
      assert s.word + [w[0]] + w[1..] == s.word + w;
    }
  }

  lemma {:induction false} RunQuotedWord(e: Env, s: Scan, w: string)
    requires s.status == Running && !s.comment && s.quote && !s.newclause && s.argument != NOTHING
    requires '"' !in w && '#' !in w && !s.oneIpRange
    requires w != "" && s.word == "" ==> !IsSpace(w[0])
    requires |s.word| + |w| < MAXLEN
    ensures Run(e, s, w) == s.(word := s.word + w)
    decreases |w|
  {
    if w != "" {
      assert w[0] != '"' && w[0] != '#';
      assert Step(e, s, w[0]) == s.(word := s.word + [w[0]]);
      RunQuotedWord(e, s.(word := s.word + [w[0]]), w[1..]);
      assert s.word + [w[0]] + w[1..] == s.word + w;
    }
  }

  lemma {:induction false} RunPlain(e: Env, s: Scan, t: string)
    requires Skipping(s) && !s.quote && forall c | c in t :: Ordinary(c)
    ensures Run(e, s, t) == s
    decreases |t|
  {
    if t != "" {
      assert t[0] in t;
      assert Step(e, s, t[0]) == s;
      RunPlain(e, s, t[1..]);
    }
  }

  lemma {:induction false} RunQuoted(e: Env, s: Scan, t: string)
    requires Skipping(s) && s.quote && '"' !in t
    ensures Run(e, s, t) == s
    decreases |t|
  {
    if t != "" {
      assert Step(e, s, t[0]) == s;
      RunQuoted(e, s, t[1..]);
    }
  }

  lemma {:induction false} RunPieces(e: Env, s: Scan, ps: seq<Piece>)
    requires Skipping(s) && !s.quote && GoodPieces(ps)
    ensures Run(e, s, PiecesText(ps)) == s
    decreases |ps|
  {
    if ps != [] {
      assert GoodPiece(ps[0]);
      match ps[0] {
        case Plain(t) => RunPlain(e, s, t);
        case Quoted(t) =>
          var q := s.(quote := true);
          RunConcat(e, s, "\"" + t, "\"");
          RunConcat(e, s, "\"", t);
          RunOne(e, s, '"');
          RunQuoted(e, q, t);
          RunOne(e, q, '"');
      }
      RunConcat(e, s, PieceText(ps[0]), PiecesText(ps[1..]));
      RunPieces(e, s, ps[1..]);
    }
  }

  // ----- composing runs -----

  lemma Then(e: Env, s: Scan, t: string, s1: Scan, u: string, s2: Scan)
    requires Run(e, s, t) == s1 && Run(e, s1, u) == s2
    ensures Run(e, s, t + u) == s2
  {
    RunConcat(e, s, t, u);
  }

  lemma RunFreshWord(e: Env, s: Scan, w: string)
    requires s.status == Running && !s.comment && !s.quote && (s.newclause || s.argument != NOTHING)
    requires IsWord(w) && s.word == ""
    ensures Run(e, s, w) == s.(word := w)
  {
    RunWord(e, s, w);
    assert "" + w == w;
  }

  // ----- the characters that end a word, a statement or a block -----

  /** The blank after the first word of a statement. */
  lemma EndFirstWord(e: Env, s: Scan, c: char)
    requires Idle(s.(word := "")) && IsWord(s.word) && IsSpace(c)
    ensures var a := InterestingClause(s.word);
            Run(e, s, [c]) == s.(newclause := false, argument := a, oneIpRange := a == RANGE_FIRST_IP, word := "")
  {
    hide Occurs;
    assert s.word[|s.word| - 1] in s.word;
    RunOne(e, s, c);
  }

  lemma EndBare(e: Env, s: Scan)
    requires Idle(s.(word := ""))
    ensures Run(e, s, ";") == s.(word := "")
  {
    RunOne(e, s, ';');
  }

  lemma EndStatement(e: Env, s: Scan)
    requires Skipping(s) && !s.quote
    ensures Run(e, s, ";") == s.(newclause := true)
  {
    RunOne(e, s, ';');
  }

  lemma EnterBlock(e: Env, s: Scan)
    requires Skipping(s) && !s.quote
    ensures Run(e, s, "{") == s.(newclause := true, braces := s.braces + 1)
  {
    RunOne(e, s, '{');
  }

  lemma LeaveBlock(e: Env, s: Scan)
    requires Idle(s)
    ensures Run(e, s, "}") ==
            if s.bracesShared == s.braces - 1
            then s.(braces := s.braces - 1, bracesShared := NO_BRACES, shared := 0)
            else s.(braces := s.braces - 1)
  {
    RunOne(e, s, '}');
  }

  /** The blank after a word where the first address is expected. */
  lemma EndFlag(e: Env, s: Scan, c: char)
    requires AwaitsFirst(s.(word := "")) && e.Parse(s.word) == None && IsSpace(c)
    ensures Run(e, s, [c]) == s.(word := "", rangeP := Here)
  {
    RunOne(e, s, c);
  }

  lemma EndFirstAddress(e: Env, s: Scan, c: char)
    requires AwaitsFirst(s.(word := "")) && s.word != "" && e.Parse(s.word).Some? && IsSpace(c)
    ensures Run(e, s, [c]) == s.(word := "", rangeP := Here, firstIp := e.Parse(s.word), oneIpRange := false,
                                 argument := RANGE_SECOND_IP)
  {
    RunOne(e, s, c);
  }

  /** The semicolon right after the only address of a range. */
  lemma EndOnlyAddress(e: Env, s: Scan)
    requires AwaitsFirst(s.(word := ""))
    ensures Run(e, s, ";") == s.(argument := RANGE_SECOND_IP)
  {
    RunOne(e, s, ';');
  }

  lemma ReorderIs(ver: Version, a: Addr, b: Addr)
    ensures Reorder(ver, a, b) == (if a <= b then a else b, if a <= b then b else a)
  {
    hide IpComp;
  }

  /** The word that completes a range. */
  lemma LastAddress(e: Env, s: Scan)
    requires s.status == Running && s.argument == RANGE_SECOND_IP && e.Parse(s.word).Some?
    requires s.oneIpRange || s.firstIp.Some?
    ensures var a, b := if s.oneIpRange then e.Parse(s.word).value else s.firstIp.value, e.Parse(s.word).value;
            Word(e, s) ==
            s.(argument := NOTHING, word := "", oneIpRange := false, newclause := true, rangeP := Behind,
               firstIp := None,
               ranges := s.ranges + [Range(s.shared, if a <= b then a else b, if a <= b then b else a, 0, 0, 0)])
  {
    hide Reorder;
    ReorderIs(e.ver, if s.oneIpRange then e.Parse(s.word).value else s.firstIp.value, e.Parse(s.word).value);
  }

  /** A complete second address: at a semicolon, or at a blank when there is only one address. */
  lemma EndRange(e: Env, s: Scan, c: char)
    requires s.status == Running && !s.newclause && !s.comment && !s.quote && s.argument == RANGE_SECOND_IP
    requires s.word != "" && e.Parse(s.word).Some? && (c == ';' || IsSpace(c))
    requires s.oneIpRange || s.firstIp.Some?
    ensures var a, b := if s.oneIpRange then e.Parse(s.word).value else s.firstIp.value, e.Parse(s.word).value;
            Run(e, s, [c]) ==
            s.(argument := NOTHING, word := "", oneIpRange := false, newclause := true, rangeP := Behind,
               firstIp := None,
               ranges := s.ranges + [Range(s.shared, if a <= b then a else b, if a <= b then b else a, 0, 0, 0)])
  {
    hide Word, InterestingClause, NewRange;
    LastAddress(e, s);
    RunOne(e, s, c);
  }

  lemma EndName(e: Env, s: Scan, c: char)
    requires s.status == Running && !s.newclause && !s.comment && !s.quote && !s.oneIpRange
    requires s.argument == SHAREDNET && s.word != "" && IsSpace(c) && |s.names| + 2 <= SHARED_NETWORKS
    ensures Run(e, s, [c]) == s.(word := "", argument := NOTHING, names := s.names + [s.word],
                                 shared := |s.names|, bracesShared := s.braces)
  {
    RunOne(e, s, c);
  }

  // ----- the scanner on items -----

  /** s' is between items again, with rs, ns and fs added to the tables and the nesting unchanged. */
  ghost predicate Adds(s: Scan, s': Scan, rs: seq<Range>, ns: seq<string>, fs: seq<string>) {
    && Idle(s') && s'.braces == s.braces && s'.bracesShared == s.bracesShared && s'.shared == s.shared
    && s'.ranges == s.ranges + rs && s'.names == s.names + ns && s'.includes == s.includes + fs
  }

  lemma SplitGap(gap: string)
    requires Gap(gap)
    ensures gap == [gap[0]] + gap[1..] && IsSpace(gap[0]) && AllSpace(gap[1..])
    ensures forall c | c in gap[1..] :: Ordinary(c)
  {
    assert gap[0] in gap;
  }

  /** The first word of an item and the blank after it. */
  lemma RunFirstWord(e: Env, s: Scan, w: string, c: char)
    requires Idle(s) && IsWord(w) && IsSpace(c)
    ensures var a := if Occurs("range", w) then RANGE_FIRST_IP else if AnnouncesNetwork(w) then SHAREDNET
                     else if AnnouncesFile(w) then INCLUDE else NOTHING;
            Run(e, s, w + [c]) == s.(newclause := false, argument := a, oneIpRange := a == RANGE_FIRST_IP)
  {
    hide Run, Occurs, IsSpace;
    RunFreshWord(e, s, w);
    EndFirstWord(e, s.(word := w), c);
    RunConcat(e, s, w, [c]);
    ClauseMeaning(w);
  }

  /** An uninteresting word and the rest of its statement leave the scanner skipping. */
  lemma RunHeader(e: Env, s: Scan, w: string, gap: string, rest: seq<Piece>)
    requires Idle(s) && IsWord(w) && Uninteresting(w) && Gap(gap) && GoodPieces(rest)
    ensures Run(e, s, w + gap + PiecesText(rest)) == s.(newclause := false)
  {
    hide Run, Occurs, IsSpace, GoodPieces, PiecesText;
    var k := s.(newclause := false);
    SplitGap(gap);
    RunFirstWord(e, s, w, gap[0]);
    RunPlain(e, k, gap[1..]);
    Then(e, s, w + [gap[0]], k, gap[1..], k);
    assert w + gap == w + [gap[0]] + gap[1..];
    RunPieces(e, k, rest);
    Then(e, s, w + gap, k, PiecesText(rest), k);
  }

  lemma {:induction false} RunStripped(e: Env, s: Scan, t: string)
    requires s.status == Running && !s.comment && !s.quote && s.argument != NOTHING && s.word == "" && !s.oneIpRange
    requires AllSpace(t)
    ensures Run(e, s, t) == s
    decreases |t|
  {
    if t != "" {
      assert t[0] in t;
      assert Step(e, s, t[0]) == s;
      RunStripped(e, s, t[1..]);
    }
  }

  // ----- ranges -----

  /** Waiting for the first address of a range. */
  predicate AwaitsFirst(s: Scan) {
    && s.status == Running && !s.newclause && !s.comment && s.oneIpRange && !s.quote
    && s.argument == RANGE_FIRST_IP && s.word == ""
  }

  /** Blanks before the first address; after the first of them range_p is set. */
  lemma {:induction false} RunAwaiting(e: Env, s: Scan, t: string)
    requires AwaitsFirst(s) && AllSpace(t) && e.Parse("") == None
    ensures Run(e, s, t) == if t == "" then s else s.(rangeP := Here)
    decreases |t|
  {
    hide Run, Step;
    if t != "" {
      assert t[0] in t && t == [t[0]] + t[1..];
      EndFlag(e, s, t[0]);
      RunConcat(e, s, [t[0]], t[1..]);
      RunAwaiting(e, s.(rangeP := Here), t[1..]);
    } else {
      RunNothing(e, s);
    }
  }

  lemma RunNothing(e: Env, s: Scan)
    ensures Run(e, s, "") == s
  {
  }

  lemma {:induction false} RunFlags(e: Env, s: Scan, fs: seq<(string, string)>) returns (p: RangePointer)
    requires AwaitsFirst(s) && GoodFlags(e, fs) && e.Parse("") == None
    ensures Run(e, s, FlagsText(fs)) == s.(rangeP := p)
    decreases |fs|
  {
    hide Run, IsSpace, IsWord;
    if fs == [] {
      RunNothing(e, s);
      p := s.rangeP;
    } else {
      var w, gap := fs[0].0, fs[0].1;
      var h := s.(rangeP := Here);
      assert fs[0] in fs;
      SplitGap(gap);
      RunFreshWord(e, s, w);
      EndFlag(e, s.(word := w), gap[0]);
      Then(e, s, w, s.(word := w), [gap[0]], h);
      RunAwaiting(e, h, gap[1..]);
      Then(e, s, w + [gap[0]], h, gap[1..], h);
      assert w + [gap[0]] + gap[1..] == w + gap;
      p := RunFlags(e, h, fs[1..]);
      Then(e, s, w + gap, h, FlagsText(fs[1..]), s.(rangeP := p));
    }
  }

  /** The keyword, its gap and the flags. */
  lemma RunRangeHead(e: Env, s: Scan, w: string, gap: string, fs: seq<(string, string)>) returns (k: Scan)
    requires Idle(s) && IsWord(w) && Occurs("range", w) && Gap(gap) && GoodFlags(e, fs)
    requires e.Parse("") == None
    ensures Run(e, s, w + gap + FlagsText(fs)) == k
    ensures k == s.(newclause := false, argument := RANGE_FIRST_IP, oneIpRange := true, rangeP := k.rangeP)
  {
    hide Run, IsSpace, IsWord, Occurs, GoodFlags, FlagsText;
    SplitGap(gap);
    RunFirstWord(e, s, w, gap[0]);
    var k0 := s.(newclause := false, argument := RANGE_FIRST_IP, oneIpRange := true);
    RunAwaiting(e, k0, gap[1..]);
    var k1 := Run(e, k0, gap[1..]);
    Then(e, s, w + [gap[0]], k0, gap[1..], k1);
    assert w + gap == w + [gap[0]] + gap[1..];
    var p := RunFlags(e, k1, fs);
    k := k1.(rangeP := p);
    Then(e, s, w + gap, k1, FlagsText(fs), k);
  }

  lemma RunRangeOfTwo(e: Env, s: Scan, w: string, gap: string, fs: seq<(string, string)>, a: string, gap2: string,
                      b: string)
    requires Idle(s) && IsWord(w) && Occurs("range", w) && Gap(gap) && GoodFlags(e, fs)
    requires IsAddress(e, a) && Gap(gap2) && IsAddress(e, b) && e.Parse("") == None
    ensures Adds(s, Run(e, s, w + gap + FlagsText(fs) + a + gap2 + b + ";"), [Declared(e, s.shared, a, b)], [], [])
  {
    hide Run, IsSpace, Occurs, GoodFlags, FlagsText;
    var t := w + gap + FlagsText(fs);
    var k := RunRangeHead(e, s, w, gap, fs);
    SplitGap(gap2);
    RunFreshWord(e, k, a);
    Then(e, s, t, k, a, k.(word := a));
    EndFirstAddress(e, k.(word := a), gap2[0]);
    var k2 := Run(e, k.(word := a), [gap2[0]]);
    Then(e, s, t + a, k.(word := a), [gap2[0]], k2);
    RunStripped(e, k2, gap2[1..]);
    Then(e, s, t + a + [gap2[0]], k2, gap2[1..], k2);
    assert t + a + [gap2[0]] + gap2[1..] == t + a + gap2;
    RunFreshWord(e, k2, b);
    Then(e, s, t + a + gap2, k2, b, k2.(word := b));
    EndRange(e, k2.(word := b), ';');
    Then(e, s, t + a + gap2 + b, k2.(word := b), ";", Run(e, k2.(word := b), ";"));
  }

  lemma RunRangeOfOne(e: Env, s: Scan, w: string, gap: string, fs: seq<(string, string)>, a: string, after: char)
    requires Idle(s) && IsWord(w) && Occurs("range", w) && Gap(gap) && GoodFlags(e, fs)
    requires IsAddress(e, a) && IsBlank(after) && e.Parse("") == None
    ensures Adds(s, Run(e, s, w + gap + FlagsText(fs) + a + ";" + [after]), [Declared(e, s.shared, a, a)], [], [])
  {
    hide Run, IsSpace, Occurs, GoodFlags, FlagsText;
    var t := w + gap + FlagsText(fs);
    var k := RunRangeHead(e, s, w, gap, fs);
    var k1 := k.(word := a);
    var k2 := k1.(argument := RANGE_SECOND_IP);
    RunFreshWord(e, k, a);
    Then(e, s, t, k, a, k1);
    EndOnlyAddress(e, k1);
    Then(e, s, t + a, k1, ";", k2);
    BlankIsSpace(after);
    EndRange(e, k2, after);
    Then(e, s, t + a + ";", k2, [after], Run(e, k2, [after]));
  }

  // ----- shared networks -----

  lemma RunName(e: Env, s: Scan, name: Piece)
    requires s.status == Running && !s.comment && !s.quote && !s.newclause
    requires s.argument == SHAREDNET || s.argument == INCLUDE
    requires s.word == "" && !s.oneIpRange && GoodName(name)
    ensures Run(e, s, PieceText(name)) == s.(word := name.text)
  {
    hide IsSpace;
    match name {
      case Plain(t) => RunFreshWord(e, s, t);
      case Quoted(t) =>
        var q := s.(quote := true);
        RunOne(e, s, '"');
        RunConcat(e, s, "\"", t);
        BlankIsSpace(t[0]);
        RunQuotedWord(e, q, t);
        assert "" + t == t;
        RunConcat(e, s, "\"" + t, "\"");
        RunOne(e, q.(word := t), '"');
    }
  }

  lemma NameIsNotEmpty(name: Piece)
    requires GoodName(name)
    ensures name.text != ""
  {
  }

  /** `shared-network NAME {` registers the network and enters it. */
  lemma RunSharedHead(e: Env, s: Scan, w: string, gap: string, name: Piece, gap2: string)
    requires Idle(s) && IsWord(w) && AnnouncesNetwork(w) && Gap(gap) && GoodName(name) && Gap(gap2)
    requires |s.names| + 2 <= SHARED_NETWORKS
    ensures Run(e, s, w + gap + PieceText(name) + gap2 + "{") ==
            s.(names := s.names + [name.text], shared := |s.names|, bracesShared := s.braces, braces := s.braces + 1)
  {
    hide Run, IsSpace, Occurs, GoodName, PieceText;
    var k := s.(newclause := false, argument := SHAREDNET);
    SplitGap(gap);
    SplitGap(gap2);
    NameIsNotEmpty(name);
    RunFirstWord(e, s, w, gap[0]);
    RunStripped(e, k, gap[1..]);
    Then(e, s, w + [gap[0]], k, gap[1..], k);
    assert w + gap == w + [gap[0]] + gap[1..];
    var k1 := k.(word := name.text);
    RunName(e, k, name);
    Then(e, s, w + gap, k, PieceText(name), k1);
    var t := w + gap + PieceText(name);
    var k2 := s.(newclause := false, names := s.names + [name.text], shared := |s.names|, bracesShared := s.braces);
    EndName(e, k1, gap2[0]);
    Then(e, s, t, k1, [gap2[0]], k2);
    RunPlain(e, k2, gap2[1..]);
    Then(e, s, t + [gap2[0]], k2, gap2[1..], k2);
    assert t + [gap2[0]] + gap2[1..] == t + gap2;
    EnterBlock(e, k2);
    Then(e, s, t + gap2, k2, "{", Run(e, k2, "{"));
  }

  // ----- included files -----

  /** A semicolon does not end the name of a file... */
  lemma AfterFile(e: Env, s: Scan)
    requires s.status == Running && !s.quote && s.argument == INCLUDE
    ensures Run(e, s, ";") == s
  {
    RunOne(e, s, ';');
  }

  /** ... a blank does. */
  lemma EndFile(e: Env, s: Scan, c: char)
    requires s.status == Running && !s.newclause && !s.comment && !s.quote && !s.oneIpRange
    requires s.argument == INCLUDE && s.word != "" && IsSpace(c)
    ensures Run(e, s, [c]) == s.(word := "", argument := NOTHING, includes := s.includes + [s.word], newclause := true)
  {
    RunOne(e, s, c);
  }

  /** `include FILE;` followed by a blank records the file. */
  lemma RunInclude(e: Env, s: Scan, w: string, gap: string, file: Piece, after: char)
    requires Idle(s) && IsWord(w) && AnnouncesFile(w) && Gap(gap) && GoodName(file) && IsBlank(after)
    ensures Adds(s, Run(e, s, w + gap + PieceText(file) + ";" + [after]), [], [], [file.text])
  {
    hide Run, IsSpace, IsBlank, Occurs, GoodName, PieceText;
    var k := s.(newclause := false, argument := INCLUDE);
    SplitGap(gap);
    BlankIsSpace(after);
    NameIsNotEmpty(file);
    RunFirstWord(e, s, w, gap[0]);
    RunStripped(e, k, gap[1..]);
    Then(e, s, w + [gap[0]], k, gap[1..], k);
    assert w + gap == w + [gap[0]] + gap[1..];
    var k1 := k.(word := file.text);
    RunName(e, k, file);
    var t := w + gap + PieceText(file);
    Then(e, s, w + gap, k, PieceText(file), k1);
    AfterFile(e, k1);
    Then(e, s, t, k1, ";", k1);
    EndFile(e, k1, after);
    Then(e, s, t + ";", k1, [after], Run(e, k1, [after]));
  }

  // ----- the tree -----

  /** Outside every shared network, or inside the one whose closing brace is remembered. */
  predicate Nested(s: Scan, top: bool) {
    if top then s.shared == 0 && s.bracesShared == NO_BRACES else s.bracesShared < s.braces
  }

  lemma AddsThen(s: Scan, k: Scan, t: Scan, rs: seq<Range>, ns: seq<string>, fs: seq<string>, rs': seq<Range>,
                 ns': seq<string>, fs': seq<string>)
    requires Adds(s, k, rs, ns, fs) && Adds(k, t, rs', ns', fs')
    ensures Adds(s, t, rs + rs', ns + ns', fs + fs')
  {
    assert s.ranges + (rs + rs') == s.ranges + rs + rs';
    assert s.names + (ns + ns') == s.names + ns + ns';
    assert s.includes + (fs + fs') == s.includes + fs + fs';
  }

  lemma AddsNothing(s: Scan)
    requires Idle(s)
    ensures Adds(s, s, [], [], [])
  {
  }

  lemma AddsKeeps(s: Scan, k: Scan, top: bool, rs: seq<Range>, ns: seq<string>, fs: seq<string>)
    requires Nested(s, top) && Adds(s, k, rs, ns, fs)
    ensures Idle(k) && Nested(k, top) && k.shared == s.shared && |k.names| == |s.names| + |ns|
  {
  }

  /** Scanning a tree adds its ranges and networks, in document order. */
  lemma {:induction false} RunItems(e: Env, s: Scan, items: Items, top: bool)
    requires Idle(s) && Nested(s, top) && Good(e, items, top) && e.Parse("") == None
    requires |s.names| + |Names(items)| < SHARED_NETWORKS
    ensures Adds(s, Run(e, s, Text(items)), Ranges(e, items, top, s.shared, |s.names|), Names(items),
                 Files(items))
    decreases items, 0
  {
    hide Run, ItemText, ItemRanges, ItemNames, ItemFiles, GoodItem, Adds, Idle, Nested;
    match items
    case Nil =>
      RunNothing(e, s);
      AddsNothing(s);
    case Cons(head, tail) =>
      RunItem(e, s, head, top);
      var k := Run(e, s, ItemText(head));
      var rs, ns, fs := ItemRanges(e, head, top, s.shared, |s.names|), ItemNames(head), ItemFiles(head);
      AddsKeeps(s, k, top, rs, ns, fs);
      RunItems(e, k, tail, top);
      var t := Run(e, k, Text(tail));
      Then(e, s, ItemText(head), k, Text(tail), t);
      AddsThen(s, k, t, rs, ns, fs, Ranges(e, tail, top, k.shared, |k.names|), Names(tail), Files(tail));
  }

  lemma {:induction false} RunItem(e: Env, s: Scan, i: Item, top: bool)
    requires Idle(s) && Nested(s, top) && GoodItem(e, i, top) && e.Parse("") == None
    requires |s.names| + |ItemNames(i)| < SHARED_NETWORKS
    ensures Adds(s, Run(e, s, ItemText(i)), ItemRanges(e, i, top, s.shared, |s.names|), ItemNames(i),
                 ItemFiles(i))
    decreases i, 0
  {
    hide Run, IsSpace, IsWord, Occurs, GoodFlags, GoodPieces, GoodName;
    match i
    case Blank(space) => RunBlank(e, s, space);
    case Comment(text) => RunComment(e, s, text);
    case Bare(word) =>
      RunFreshWord(e, s, word);
      EndBare(e, s.(word := word));
      Then(e, s, word, s.(word := word), ";", s);
    case Statement(word, gap, rest) =>
      var k := s.(newclause := false);
      RunHeader(e, s, word, gap, rest);
      EndStatement(e, k);
      Then(e, s, word + gap + PiecesText(rest), k, ";", s);
    case RangeOfTwo(word, gap, flags, a, gap2, b) => RunRangeOfTwo(e, s, word, gap, flags, a, gap2, b);
    case RangeOfOne(word, gap, flags, a, after) => RunRangeOfOne(e, s, word, gap, flags, a, after);
    case Include(word, gap, file, after) => RunInclude(e, s, word, gap, file, after);
    case Block(word, gap, rest, body) => RunBlock(e, s, word, gap, rest, body, top);
    case SharedNetwork(word, gap, name, gap2, body) => RunSharedNetwork(e, s, word, gap, name, gap2, body);
  }

  lemma {:induction false} RunBlock(e: Env, s: Scan, word: string, gap: string, rest: seq<Piece>, body: Items,
                                    top: bool)
    requires Idle(s) && Nested(s, top) && e.Parse("") == None
    requires IsWord(word) && Uninteresting(word) && Gap(gap) && GoodPieces(rest) && Good(e, body, top)
    requires |s.names| + |Names(body)| < SHARED_NETWORKS
    ensures Adds(s, Run(e, s, word + gap + PiecesText(rest) + "{" + Text(body) + "}"),
                 Ranges(e, body, top, s.shared, |s.names|), Names(body), Files(body))
    decreases body, 1
  {
    hide Run, IsSpace, IsWord, Occurs, GoodPieces, Good, Ranges, Names, Text, PiecesText;
    var t := word + gap + PiecesText(rest);
    var k := s.(newclause := false);
    var k1 := s.(braces := s.braces + 1);
    RunHeader(e, s, word, gap, rest);
    EnterBlock(e, k);
    Then(e, s, t, k, "{", k1);
    RunItems(e, k1, body, top);
    var k2 := Run(e, k1, Text(body));
    Then(e, s, t + "{", k1, Text(body), k2);
    LeaveBlock(e, k2);
    Then(e, s, t + "{" + Text(body), k2, "}", Run(e, k2, "}"));
  }

  lemma {:induction false} RunSharedNetwork(e: Env, s: Scan, word: string, gap: string, name: Piece, gap2: string,
                                            body: Items)
    requires Idle(s) && Nested(s, true) && e.Parse("") == None
    requires IsWord(word) && AnnouncesNetwork(word) && Gap(gap) && GoodName(name) && Gap(gap2)
    requires Good(e, body, false)
    requires |s.names| + 1 + |Names(body)| < SHARED_NETWORKS
    ensures Adds(s, Run(e, s, word + gap + PieceText(name) + gap2 + "{" + Text(body) + "}"),
                 Ranges(e, body, false, |s.names|, |s.names| + 1), [name.text] + Names(body), Files(body))
    decreases body, 1
  {
    hide Run, IsSpace, IsWord, Occurs, GoodName, Good, Ranges, Names, Text, PieceText;
    var t := word + gap + PieceText(name) + gap2 + "{";
    RunSharedHead(e, s, word, gap, name, gap2);
    var k := Run(e, s, t);
    RunItems(e, k, body, false);
    var k2 := Run(e, k, Text(body));
    Then(e, s, t, k, Text(body), k2);
    LeaveBlock(e, k2);
    Then(e, s, t + Text(body), k2, "}", Run(e, k2, "}"));
  }

  lemma RunComment(e: Env, s: Scan, text: string)
    requires Idle(s) && '\n' !in text
    ensures Run(e, s, "#" + text + "\n") == s
  {
    var c := s.(comment := true);
    RunOne(e, s, '#');
    RunConcat(e, s, "#", text);
    RunCommentText(e, c, text);
    RunConcat(e, s, "#" + text, "\n");
    RunOne(e, c, '\n');
  }

  // ----- too many networks -----

  lemma EndLastName(e: Env, s: Scan, c: char)
    requires s.status == Running && !s.newclause && !s.comment && !s.quote && !s.oneIpRange
    requires s.argument == SHAREDNET && s.word != "" && IsSpace(c) && |s.names| + 2 > SHARED_NETWORKS
    ensures Run(e, s, [c]).status == TooManyNetworks
  {
    RunOne(e, s, c);
  }

  lemma StaysStopped(e: Env, s: Scan, t: string, u: string)
    requires Run(e, s, t).status == TooManyNetworks
    ensures Run(e, s, t + u).status == TooManyNetworks
  {
    RunConcat(e, s, t, u);
    RunStopped(e, Run(e, s, t), u);
  }

  lemma RunSharedHeadFull(e: Env, s: Scan, w: string, gap: string, name: Piece, gap2: string)
    requires Idle(s) && IsWord(w) && AnnouncesNetwork(w) && Gap(gap) && GoodName(name) && Gap(gap2)
    requires |s.names| + 2 > SHARED_NETWORKS
    ensures Run(e, s, w + gap + PieceText(name) + gap2).status == TooManyNetworks
  {
    hide Run, IsSpace, Occurs, GoodName, PieceText;
    var k := s.(newclause := false, argument := SHAREDNET);
    SplitGap(gap);
    SplitGap(gap2);
    NameIsNotEmpty(name);
    RunFirstWord(e, s, w, gap[0]);
    RunStripped(e, k, gap[1..]);
    Then(e, s, w + [gap[0]], k, gap[1..], k);
    assert w + gap == w + [gap[0]] + gap[1..];
    var k1 := k.(word := name.text);
    RunName(e, k, name);
    Then(e, s, w + gap, k, PieceText(name), k1);
    var t := w + gap + PieceText(name);
    EndLastName(e, k1, gap2[0]);
    Then(e, s, t, k1, [gap2[0]], Run(e, k1, [gap2[0]]));
    StaysStopped(e, s, t + [gap2[0]], gap2[1..]);
    assert t + [gap2[0]] + gap2[1..] == t + gap2;
  }

  lemma {:induction false} RunItemsFull(e: Env, s: Scan, items: Items, top: bool)
    requires Idle(s) && Nested(s, top) && Good(e, items, top) && e.Parse("") == None
    requires |s.names| < SHARED_NETWORKS <= |s.names| + |Names(items)|
    ensures Run(e, s, Text(items)).status == TooManyNetworks
    decreases items, 0
  {
    hide Run, ItemText, ItemRanges, ItemNames, GoodItem;
    match items
    case Nil =>
    case Cons(head, tail) =>
      if |s.names| + |ItemNames(head)| < SHARED_NETWORKS {
        RunItem(e, s, head, top);
        var k := Run(e, s, ItemText(head));
        RunItemsFull(e, k, tail, top);
        Then(e, s, ItemText(head), k, Text(tail), Run(e, k, Text(tail)));
      } else {
        RunItemFull(e, s, head, top);
        StaysStopped(e, s, ItemText(head), Text(tail));
      }
  }

  lemma {:induction false} RunItemFull(e: Env, s: Scan, i: Item, top: bool)
    requires Idle(s) && Nested(s, top) && GoodItem(e, i, top) && e.Parse("") == None
    requires |s.names| < SHARED_NETWORKS <= |s.names| + |ItemNames(i)|
    ensures Run(e, s, ItemText(i)).status == TooManyNetworks
    decreases i, 0
  {
    hide Run, IsSpace, IsWord, Occurs, GoodPieces, GoodName, PiecesText, PieceText;
    match i
    case Block(word, gap, rest, body) =>
      var t := word + gap + PiecesText(rest);
      var k := s.(newclause := false);
      var k1 := s.(braces := s.braces + 1);
      RunHeader(e, s, word, gap, rest);
      EnterBlock(e, k);
      Then(e, s, t, k, "{", k1);
      RunItemsFull(e, k1, body, top);
      Then(e, s, t + "{", k1, Text(body), Run(e, k1, Text(body)));
      StaysStopped(e, s, t + "{" + Text(body), "}");
    case SharedNetwork(word, gap, name, gap2, body) =>
      var t := word + gap + PieceText(name) + gap2;
      if |s.names| + 2 > SHARED_NETWORKS {
        RunSharedHeadFull(e, s, word, gap, name, gap2);
        StaysStopped(e, s, t, "{");
        StaysStopped(e, s, t + "{", Text(body));
      } else {
        RunSharedHead(e, s, word, gap, name, gap2);
        var k := Run(e, s, t + "{");
        RunItemsFull(e, k, body, false);
        Then(e, s, t + "{", k, Text(body), Run(e, k, Text(body)));
      }
      StaysStopped(e, s, t + "{" + Text(body), "}");
    case _ =>
  }

  /** A structured configuration is accepted exactly when the network table has room for it. */
  lemma ScannerAcceptsIff(e: Env, items: Items)
    requires Good(e, items, true) && e.Parse("") == None
    ensures Run(e, INIT, Text(items) + [EOF_CHAR]).status ==
            if |Names(items)| <= 8190 then Running else TooManyNetworks
  {
    hide Run, Good, Text, Names;
    if |Names(items)| <= 8190 {
      ScannerRecoversTree(e, items);
    } else {
      RunItemsFull(e, INIT, items, true);
      StaysStopped(e, INIT, Text(items), [EOF_CHAR]);
    }
  }

  /** The scanner recovers a structured configuration: on its text it stores exactly the declared
      ranges, in document order, each with the smaller address first and attributed to its enclosing
      shared network or to entry 0, and the shared networks in document order. */
  lemma ScannerRecoversTree(e: Env, items: Items)
    requires Good(e, items, true) && e.Parse("") == None
    requires |Names(items)| <= 8190
    ensures var s := Run(e, INIT, Text(items) + [EOF_CHAR]);
            && s.status == Running
            && s.ranges == Ranges(e, items, true, 0, 1)
            && s.names == ["All networks"] + Names(items)
            && s.includes == Files(items)
  {
    RunItems(e, INIT, items, true);
    RunConcat(e, INIT, Text(items), [EOF_CHAR]);
    RunOne(e, Run(e, INIT, Text(items)), EOF_CHAR);
  }

  // ----- texts the grammar does not have -----

  /** The program ends with an error at a range statement that is closed twice without an address. */
  lemma RangeWithoutAddress(e: Env, s: Scan, w: string, blank: char)
    requires Idle(s) && s.rangeP == Null && IsWord(w) && Occurs("range", w) && IsBlank(blank)
    ensures Run(e, s, w + [blank] + ";" + ";").status == ParsingFailed
  {
    hide Run, Occurs, IsSpace, IsBlank;
    var k := s.(newclause := false, argument := RANGE_FIRST_IP, oneIpRange := true);
    BlankIsSpace(blank);
    RunFirstWord(e, s, w, blank);
    EndOnlyAddress(e, k);
    Then(e, s, w + [blank], k, ";", k.(argument := RANGE_SECOND_IP));
    NoRangeYet(e, k.(argument := RANGE_SECOND_IP));
    Then(e, s, w + [blank] + ";", k.(argument := RANGE_SECOND_IP), ";", Run(e, k.(argument := RANGE_SECOND_IP), ";"));
  }

  lemma NoRangeYet(e: Env, s: Scan)
    requires s.status == Running && !s.quote && s.argument == RANGE_SECOND_IP && s.word == "" && s.rangeP == Null
    ensures Run(e, s, ";").status == ParsingFailed
  {
    RunOne(e, s, ';');
  }

  /** A first word of 1024 characters is dropped, and with it what it announces. */
  lemma LongWordIsDropped(e: Env, s: Scan, w: string)
    requires Idle(s) && |w| == 1024 && forall c | c in w :: Ordinary(c) && !IsBlank(c)
    ensures Run(e, s, w) == s.(newclause := false)
  {
    hide Run;
    assert w == w[..1023] + [w[1023]] && IsWord(w[..1023]) && w[1023] in w;
    RunFreshWord(e, s, w[..1023]);
    LastLetter(e, s.(word := w[..1023]), w[1023]);
    Then(e, s, w[..1023], s.(word := w[..1023]), [w[1023]], s.(newclause := false));
  }

  lemma LastLetter(e: Env, s: Scan, c: char)
    requires Idle(s.(word := "")) && |s.word| == 1023 && Ordinary(c) && !IsBlank(c)
    ensures Run(e, s, [c]) == s.(newclause := false, word := "")
  {
    RunOne(e, s, c);
  }

  /** A blank before the semicolon of a range with one address: the range is stored, and the scanner goes
      on expecting a last address until the next first word. */
  lemma SpacedRangeOfOne(e: Env, s: Scan, w: string, gap: string, fs: seq<(string, string)>, a: string, gap2: string)
    requires Idle(s) && IsWord(w) && Occurs("range", w) && Gap(gap) && GoodFlags(e, fs)
    requires IsAddress(e, a) && Gap(gap2) && e.Parse("") == None
    ensures Run(e, s, w + gap + FlagsText(fs) + a + gap2 + ";") ==
            s.(ranges := s.ranges + [Declared(e, s.shared, a, a)], rangeP := Behind, firstIp := None,
               argument := RANGE_SECOND_IP)
  {
    hide Run, IsSpace, IsBlank, Occurs, GoodFlags, FlagsText;
    var t := w + gap + FlagsText(fs);
    var k := RunRangeHead(e, s, w, gap, fs);
    SplitGap(gap2);
    RunFreshWord(e, k, a);
    Then(e, s, t, k, a, k.(word := a));
    EndFirstAddress(e, k.(word := a), gap2[0]);
    var k2 := Run(e, k.(word := a), [gap2[0]]);
    Then(e, s, t + a, k.(word := a), [gap2[0]], k2);
    RunStripped(e, k2, gap2[1..]);
    Then(e, s, t + a + [gap2[0]], k2, gap2[1..], k2);
    assert t + a + [gap2[0]] + gap2[1..] == t + a + gap2;
    EndSpaced(e, k2);
    Then(e, s, t + a + gap2, k2, ";", Run(e, k2, ";"));
  }

  lemma EndSpaced(e: Env, s: Scan)
    requires s.status == Running && !s.comment && !s.quote && s.argument == RANGE_SECOND_IP && s.word == ""
    requires s.rangeP == Here && s.firstIp.Some?
    ensures Run(e, s, ";") ==
            s.(ranges := s.ranges + [Range(s.shared, s.firstIp.value, s.firstIp.value, 0, 0, 0)], rangeP := Behind,
               firstIp := None, newclause := true)
  {
    RunOne(e, s, ';');
  }

  lemma JoinBrace(e: Env, s: Scan)
    requires s.status == Running && !s.comment && !s.quote && (s.newclause || s.argument != NOTHING)
    requires 0 < |s.word| < 1023
    ensures Run(e, s, "{") == s.(word := s.word + "{", braces := s.braces + 1)
  {
    RunOne(e, s, '{');
  }

  lemma EndJoinedWord(e: Env, s: Scan, c: char)
    requires Idle(s.(word := "")) && s.word != "" && s.word[|s.word| - 1] == '{' && IsSpace(c)
    ensures var a := InterestingClause(s.word);
            Run(e, s, [c]) == s.(argument := a, oneIpRange := a == RANGE_FIRST_IP, word := "")
  {
    hide InterestingClause;
    RunOne(e, s, c);
  }

  /** A brace joined to the first word of a block opens the block like any other. */
  lemma JoinedBlock(e: Env, s: Scan, w: string, blank: char)
    requires Idle(s) && IsWord(w) && |w| < 1023 && Uninteresting(w + "{") && IsBlank(blank)
    ensures Run(e, s, w + "{" + [blank]) == s.(braces := s.braces + 1)
  {
    hide Run, Occurs, IsSpace, IsBlank, InterestingClause;
    var k := s.(word := w + "{", braces := s.braces + 1);
    BlankIsSpace(blank);
    RunFreshWord(e, s, w);
    JoinBrace(e, s.(word := w));
    Then(e, s, w, s.(word := w), "{", k);
    EndJoinedWord(e, k, blank);
    ClauseMeaning(w + "{");
    Then(e, s, w + "{", k, [blank], s.(braces := s.braces + 1));
  }

  /** A brace joined to the name of a shared network becomes part of the name. */
  lemma JoinedNetworkHead(e: Env, s: Scan, w: string, gap: string, name: string, blank: char)
    requires Idle(s) && IsWord(w) && AnnouncesNetwork(w) && Gap(gap) && IsWord(name) && |name| < 1023 && IsBlank(blank)
    requires |s.names| + 2 <= 8192
    ensures Run(e, s, w + gap + name + "{" + [blank]) ==
            s.(newclause := false, names := s.names + [name + "{"], shared := |s.names|, braces := s.braces + 1,
               bracesShared := s.braces + 1)
  {
    hide Run, Occurs, IsSpace, IsBlank;
    var k := s.(newclause := false, argument := SHAREDNET);
    SplitGap(gap);
    BlankIsSpace(blank);
    RunFirstWord(e, s, w, gap[0]);
    RunStripped(e, k, gap[1..]);
    Then(e, s, w + [gap[0]], k, gap[1..], k);
    assert w + gap == w + [gap[0]] + gap[1..];
    RunFreshWord(e, k, name);
    Then(e, s, w + gap, k, name, k.(word := name));
    JoinBrace(e, k.(word := name));
    var k1 := k.(word := name + "{", braces := s.braces + 1);
    Then(e, s, w + gap + name, k.(word := name), "{", k1);
    EndName(e, k1, blank);
    Then(e, s, w + gap + name + "{", k1, [blank], Run(e, k1, [blank]));
  }

  /** Such a network swallows its first statement and never ends: its closing brace leaves the scanner in
      it, and what is declared after that is attributed to it. */
  lemma JoinedNetworkNeverEnds(e: Env, s: Scan, w: string, gap: string, name: string, blank: char, first: string)
    requires Idle(s) && IsWord(w) && AnnouncesNetwork(w) && Gap(gap) && IsWord(name) && |name| < 1023 && IsBlank(blank)
    requires |s.names| + 2 <= 8192 && forall c | c in first :: Ordinary(c)
    ensures Run(e, s, w + gap + name + "{" + [blank] + first + ";" + "}") ==
            s.(names := s.names + [name + "{"], shared := |s.names|, bracesShared := s.braces + 1)
  {
    hide Run, Occurs, IsSpace, IsBlank, Ordinary;
    var t := w + gap + name + "{" + [blank];
    JoinedNetworkHead(e, s, w, gap, name, blank);
    var k := Run(e, s, t);
    RunPlain(e, k, first);
    Then(e, s, t, k, first, k);
    EndStatement(e, k);
    Then(e, s, t + first, k, ";", k.(newclause := true));
    LeaveBlock(e, k.(newclause := true));
    Then(e, s, t + first + ";", k.(newclause := true), "}", Run(e, k.(newclause := true), "}"));
  }
}
