/** `chunk_content` (utils/summarizer.py): Python's `textwrap.wrap(content,
    width, break_long_words=False, replace_whitespace=False)`, modelled as a
    greedy packer of whitespace-separated words. The text is cut into pieces,
    each a word with the whitespace run in front of it; a line takes pieces
    while the line still fits the width; a line never starts or ends with
    whitespace; a word longer than the width is a line of its own. */
module Chunker {
  import opened Text
  import opened Seqs

  /** textwrap's whitespace: tab, line feed, vertical tab, form feed,
      carriage return and space. */
  predicate IsWrapSpace(c: char)
  {
    c == ' ' || ('\t' <= c <= '\r')
  }

  predicate IsWordChar(c: char)
  {
    !IsWrapSpace(c)
  }

  predicate AllWrapSpace(s: string)
  {
    forall i :: 0 <= i < |s| ==> IsWrapSpace(s[i])
  }

  /** A word: a non-empty run without whitespace. */
  predicate IsWord(w: string)
  {
    |w| > 0 && forall i :: 0 <= i < |w| ==> IsWordChar(w[i])
  }

  /** A word together with the whitespace run in front of it. */
  datatype Piece = Piece(gap: string, word: string)

  /** Pieces as the tokenizer produces them: every gap is whitespace, every
      word a word, and every piece but the first is separated from the one
      before it. */
  predicate WellFormed(ps: seq<Piece>)
  {
    forall i :: 0 <= i < |ps| ==> AllWrapSpace(ps[i].gap) && IsWord(ps[i].word) && (i > 0 ==> |ps[i].gap| > 0)
  }

  /** The text the pieces were cut from (without trailing whitespace). */
  function Flatten(ps: seq<Piece>): string
  {
    if |ps| == 0 then "" else ps[0].gap + ps[0].word + Flatten(ps[1..])
  }

  function WordsOf(ps: seq<Piece>): seq<string>
  {
    seq(|ps|, i requires 0 <= i < |ps| => ps[i].word)
  }

  lemma {:induction false} FlattenConcat(a: seq<Piece>, b: seq<Piece>)
    ensures Flatten(a + b) == Flatten(a) + Flatten(b)
    decreases |a|
  {
    if |a| == 0 {
      assert a + b == b;
    } else {
      assert (a + b)[1..] == a[1..] + b;
      FlattenConcat(a[1..], b);
    }
  }

  /** Length of the whitespace run that starts `s`. */
  function SpaceRun(s: string): (n: nat)
    ensures n <= |s|
    ensures forall i :: 0 <= i < n ==> IsWrapSpace(s[i])
    ensures n < |s| ==> !IsWrapSpace(s[n])
  {
    if |s| > 0 && IsWrapSpace(s[0]) then 1 + SpaceRun(s[1..]) else 0
  }

  /** Length of the word that starts `s`. */
  function WordRun(s: string): (n: nat)
    ensures n <= |s|
    ensures forall i :: 0 <= i < n ==> IsWordChar(s[i])
    ensures n < |s| ==> IsWrapSpace(s[n])
  {
    if |s| > 0 && IsWordChar(s[0]) then 1 + WordRun(s[1..]) else 0
  }

  /** The pieces spell out a prefix of `s` and only whitespace follows. */
  predicate SpellsPrefix(s: string, ps: seq<Piece>)
  {
    var f := Flatten(ps);
    |f| <= |s| && s[..|f|] == f && AllWrapSpace(s[|f|..])
  }

  lemma {:induction false} StepWellFormed(p: Piece, t: seq<Piece>)
    requires AllWrapSpace(p.gap) && IsWord(p.word) && WellFormed(t)
    requires |t| > 0 ==> |t[0].gap| > 0
    ensures WellFormed([p] + t)
  {
    var ps := [p] + t;
    forall i | 0 <= i < |ps|
      ensures AllWrapSpace(ps[i].gap) && IsWord(ps[i].word) && (i > 0 ==> |ps[i].gap| > 0)
    {
      if i > 0 {
        assert ps[i] == t[i - 1];
      }
    }
  }

  lemma {:induction false} StepSpells(s: string, p: Piece, tail: string, t: seq<Piece>)
    requires s == p.gap + p.word + tail
    requires SpellsPrefix(tail, t)
    ensures SpellsPrefix(s, [p] + t)
  {
    var ps := [p] + t;
    assert ps[1..] == t;
    var ft := Flatten(t);
    assert Flatten(ps) == p.gap + p.word + ft;
    PrefixOfConcat(p.gap + p.word, tail, |ft|);
  }

  lemma {:induction false} PrefixOfConcat(a: string, b: string, k: nat)
    requires k <= |b|
    ensures (a + b)[..|a| + k] == a + b[..k]
    ensures (a + b)[|a| + k..] == b[k..]
  {
  }

  /** Cuts `s` into pieces: the pieces spell out `s` except for trailing
      whitespace, and there are none exactly when `s` is all whitespace. */
  function Tokenize(s: string): (ps: seq<Piece>)
    ensures WellFormed(ps)
    ensures SpellsPrefix(s, ps)
    ensures |ps| == 0 <==> AllWrapSpace(s)
    ensures |s| > 0 && IsWrapSpace(s[0]) && |ps| > 0 ==> |ps[0].gap| > 0
    decreases |s|
  {
    var n := SpaceRun(s);
    if n == |s| then
      assert s[..0] == "" && s[0..] == s;
      []
    else
      var rest := s[n..];
      var m := WordRun(rest);
      var t := Tokenize(rest[m..]);
      TokenizeCons(s, n, m, t);
      [Piece(s[..n], rest[..m])] + t
  }

  lemma {:induction false} TokenizeCons(s: string, n: nat, m: nat, t: seq<Piece>)
    requires n < |s| && n == SpaceRun(s)
    requires m == WordRun(s[n..])
    requires WellFormed(t) && SpellsPrefix(s[n..][m..], t)
    requires |s[n..][m..]| > 0 && IsWrapSpace(s[n..][m..][0]) && |t| > 0 ==> |t[0].gap| > 0
    ensures var ps := [Piece(s[..n], s[n..][..m])] + t;
            && WellFormed(ps)
            && SpellsPrefix(s, ps)
            && |ps| > 0 && !AllWrapSpace(s)
            && (|s| > 0 && IsWrapSpace(s[0]) ==> |ps[0].gap| > 0)
  {
    var tail := s[n..][m..];
    var p := Piece(s[..n], s[n..][..m]);
    TokenizeHead(s, n, m);
    if |t| > 0 {
      FlattenNonEmpty(t);
    }
    StepWellFormed(p, t);
    StepSpells(s, p, tail, t);
  }

  /** The first piece the tokenizer cuts: a whitespace run, then a word,
      then either nothing or whitespace. */
  lemma {:induction false} TokenizeHead(s: string, n: nat, m: nat)
    requires n < |s| && n == SpaceRun(s)
    requires m == WordRun(s[n..])
    ensures AllWrapSpace(s[..n]) && IsWord(s[n..][..m])
    ensures s == s[..n] + s[n..][..m] + s[n..][m..]
    ensures |s[n..][m..]| > 0 ==> IsWrapSpace(s[n..][m..][0])
    ensures !AllWrapSpace(s)
    ensures IsWrapSpace(s[0]) ==> n > 0
  {
    var gap, rest := s[..n], s[n..];
    var word, tail := rest[..m], rest[m..];
    assert rest[0] == s[n] && !IsWrapSpace(s[n]);
    assert m > 0;
    forall i | 0 <= i < n
      ensures IsWrapSpace(gap[i])
    {
      assert gap[i] == s[i];
    }
    forall i | 0 <= i < m
      ensures IsWordChar(word[i])
    {
      assert word[i] == rest[i];
    }
    if |tail| > 0 {
      assert tail[0] == rest[m];
    }
    assert s == gap + rest;
    assert rest == word + tail;
  }

  /** Well-formed pieces, if any, spell out a non-empty text. */
  lemma {:induction false} FlattenNonEmpty(t: seq<Piece>)
    requires WellFormed(t) && |t| > 0
    ensures |Flatten(t)| > 0
  {
    assert IsWord(t[0].word);
    assert Flatten(t) == t[0].gap + t[0].word + Flatten(t[1..]);
  }

  /** The words of a text, in order. */
  function Words(s: string): seq<string>
  {
    WordsOf(Tokenize(s))
  }

  lemma {:induction false} WellFormedTail(ps: seq<Piece>)
    requires |ps| > 0 && WellFormed(ps)
    ensures WellFormed(ps[1..])
  {
    forall i | 0 <= i < |ps[1..]|
      ensures AllWrapSpace(ps[1..][i].gap) && IsWord(ps[1..][i].word)
    {
      assert ps[1..][i] == ps[i + 1];
    }
  }

  /** Cutting the text the pieces make up gives back the same pieces. */
  lemma {:induction false} TokenizeFlatten(ps: seq<Piece>)
    requires WellFormed(ps)
    ensures Tokenize(Flatten(ps)) == ps
    decreases |ps|
  {
    if |ps| > 0 {
      FlattenFirst(ps);
      TokenizeStep(ps[0].gap, ps[0].word, Flatten(ps[1..]));
      TokenizeFlatten(ps[1..]);
      assert ps == [Piece(ps[0].gap, ps[0].word)] + ps[1..];
    }
  }

  /** The text of well-formed pieces is the first piece, then a text that is
      empty or starts with whitespace. */
  lemma {:induction false} FlattenFirst(ps: seq<Piece>)
    requires WellFormed(ps) && |ps| > 0
    ensures WellFormed(ps[1..])
    ensures AllWrapSpace(ps[0].gap) && IsWord(ps[0].word)
    ensures Flatten(ps) == ps[0].gap + ps[0].word + Flatten(ps[1..])
    ensures |Flatten(ps[1..])| > 0 ==> IsWrapSpace(Flatten(ps[1..])[0])
  {
    WellFormedTail(ps);
    if |ps| > 1 {
      var f1 := Flatten(ps[1..]);
      assert ps[1..][0] == ps[1];
      assert f1 == ps[1].gap + ps[1].word + Flatten(ps[1..][1..]);
      assert |ps[1].gap| > 0;
      assert f1[0] == ps[1].gap[0];
    }
  }

  /** A whitespace run and a word, followed by nothing or by whitespace, are
      cut off as one piece. */
  lemma {:induction false} TokenizeStep(g: string, w: string, f: string)
    requires AllWrapSpace(g) && IsWord(w)
    requires |f| > 0 ==> IsWrapSpace(f[0])
    ensures Tokenize(g + w + f) == [Piece(g, w)] + Tokenize(f)
  {
    var s := g + w + f;
    assert s == g + (w + f);
    SpaceRunOf(g, w + f);
    var rest := s[|g|..];
    assert rest == w + f;
    WordRunOf(w, f);
    assert rest[|w|..] == f;
    assert s[..|g|] == g && rest[..|w|] == w;
    assert |g| < |s|;
  }

  lemma {:induction false} SpaceRunUnique(s: string, n: nat)
    requires n < |s| && !IsWrapSpace(s[n])
    requires forall i :: 0 <= i < n ==> IsWrapSpace(s[i])
    ensures SpaceRun(s) == n
  {
  }

  lemma {:induction false} WordRunUnique(s: string, n: nat)
    requires n <= |s| && (n < |s| ==> IsWrapSpace(s[n]))
    requires forall i :: 0 <= i < n ==> IsWordChar(s[i])
    ensures WordRun(s) == n
  {
  }

  lemma {:induction false} SpaceRunOf(g: string, r: string)
    requires AllWrapSpace(g) && |r| > 0 && !IsWrapSpace(r[0])
    ensures SpaceRun(g + r) == |g|
  {
    assert forall i :: 0 <= i < |g| ==> (g + r)[i] == g[i];
    assert (g + r)[|g|] == r[0];
    SpaceRunUnique(g + r, |g|);
  }

  lemma {:induction false} WordRunOf(w: string, r: string)
    requires IsWord(w) && (|r| > 0 ==> IsWrapSpace(r[0]))
    ensures WordRun(w + r) == |w|
  {
    assert forall i :: 0 <= i < |w| ==> (w + r)[i] == w[i];
    assert |r| > 0 ==> (w + r)[|w|] == r[0];
    WordRunUnique(w + r, |w|);
  }

  /** The text of one output line: its first word, then every later piece
      with the whitespace in front of it. */
  function LineText(line: seq<Piece>): string
    requires |line| > 0
  {
    line[0].word + Flatten(line[1..])
  }

  lemma {:induction false} LineTextSnoc(ps: seq<Piece>, k: nat)
    requires 1 <= k < |ps|
    ensures LineText(ps[..k + 1]) == LineText(ps[..k]) + ps[k].gap + ps[k].word
  {
    assert ps[..k + 1][1..] == ps[..k][1..] + [ps[k]];
    FlattenConcat(ps[..k][1..], [ps[k]]);
    assert Flatten([ps[k]]) == ps[k].gap + ps[k].word + Flatten([]);
  }

  /** How many pieces of `ps` go on a line that already holds `ps[..k]`: the
      line takes the next piece while it still fits `width`. */
  function Fit(ps: seq<Piece>, width: int, k: nat): (n: nat)
    requires 1 <= k <= |ps|
    requires k == 1 || |LineText(ps[..k])| <= width
    ensures k <= n <= |ps|
    ensures n == 1 || |LineText(ps[..n])| <= width
    ensures n < |ps| ==> |LineText(ps[..n])| + |ps[n].gap| + |ps[n].word| > width
    decreases |ps| - k
  {
    if k < |ps| && |LineText(ps[..k])| + |ps[k].gap| + |ps[k].word| <= width then
      LineTextSnoc(ps, k);
      Fit(ps, width, k + 1)
    else
      k
  }

  lemma {:induction false} WellFormedSuffix(ps: seq<Piece>, a: nat)
    requires WellFormed(ps) && a <= |ps|
    ensures WellFormed(ps[a..])
  {
    forall i | 0 <= i < |ps| - a
      ensures AllWrapSpace(ps[a..][i].gap) && IsWord(ps[a..][i].word) && (i > 0 ==> |ps[a..][i].gap| > 0)
    {
      assert ps[a..][i] == ps[a + i];
    }
  }

  lemma {:induction false} WellFormedSlice(ps: seq<Piece>, a: nat, b: nat)
    requires WellFormed(ps) && a <= b <= |ps|
    ensures WellFormed(ps[a..b])
  {
    forall i | 0 <= i < b - a
      ensures AllWrapSpace(ps[a..b][i].gap) && IsWord(ps[a..b][i].word) && (i > 0 ==> |ps[a..b][i].gap| > 0)
    {
      assert ps[a..b][i] == ps[a + i];
    }
  }

  predicate NonEmptyLines(lines: seq<seq<Piece>>)
  {
    forall i :: 0 <= i < |lines| ==> |lines[i]| > 0
  }

  /** Every line fits `width`, unless it is a single word. */
  predicate WithinWidth(lines: seq<seq<Piece>>, width: int)
    requires NonEmptyLines(lines)
  {
    forall i :: 0 <= i < |lines| ==> |lines[i]| == 1 || |LineText(lines[i])| <= width
  }

  /** No line could have taken the first piece of the next line. */
  predicate Greedy(lines: seq<seq<Piece>>, width: int)
    requires NonEmptyLines(lines)
  {
    forall i :: 0 <= i < |lines| - 1 ==>
      |LineText(lines[i])| + |lines[i + 1][0].gap| + |lines[i + 1][0].word| > width
  }

  predicate AllWellFormed(lines: seq<seq<Piece>>)
  {
    forall i :: 0 <= i < |lines| ==> WellFormed(lines[i])
  }

  /** Greedy line packing: the lines are non-empty and hold all pieces in
      order; a line is within `width` unless it is a single word; and no
      line could have taken the first piece of the next one. */
  function Pack(ps: seq<Piece>, width: int): (lines: seq<seq<Piece>>)
    ensures NonEmptyLines(lines)
    ensures Concat(lines) == ps
    ensures |lines| == 0 <==> |ps| == 0
    ensures WithinWidth(lines, width)
    ensures Greedy(lines, width)
    ensures WellFormed(ps) ==> AllWellFormed(lines)
    decreases |ps|
  {
    if |ps| == 0 then
      []
    else
      var n := Fit(ps, width, 1);
      var rest := Pack(ps[n..], width);
      PackCons(ps, width, n, rest);
      PackConsWellFormed(ps, n, rest);
      [ps[..n]] + rest
  }

  lemma {:induction false} PackCons(ps: seq<Piece>, width: int, n: nat, rest: seq<seq<Piece>>)
    requires 1 <= n <= |ps|
    requires n == 1 || |LineText(ps[..n])| <= width
    requires n < |ps| ==> |LineText(ps[..n])| + |ps[n].gap| + |ps[n].word| > width
    requires NonEmptyLines(rest) && Concat(rest) == ps[n..]
    requires WithinWidth(rest, width) && Greedy(rest, width)
    ensures var lines := [ps[..n]] + rest;
            && NonEmptyLines(lines)
            && Concat(lines) == ps
            && WithinWidth(lines, width)
            && Greedy(lines, width)
  {
    var first := ps[..n];
    ConsNonEmpty(first, rest);
    ConsConcat(first, rest);
    assert first + ps[n..] == ps;
    ConsWidth(first, rest, width);
    if |rest| > 0 {
      ConcatHead(rest);
    }
    ConsGreedy(first, rest, width);
  }

  lemma {:induction false} PackConsWellFormed(ps: seq<Piece>, n: nat, rest: seq<seq<Piece>>)
    requires 1 <= n <= |ps|
    requires WellFormed(ps[n..]) ==> AllWellFormed(rest)
    ensures WellFormed(ps) ==> AllWellFormed([ps[..n]] + rest)
  {
    if WellFormed(ps) {
      WellFormedSlice(ps, 0, n);
      WellFormedSuffix(ps, n);
      ConsWellFormed(ps[..n], rest);
    }
  }

  lemma {:induction false} ConsNonEmpty(first: seq<Piece>, rest: seq<seq<Piece>>)
    requires |first| > 0 && NonEmptyLines(rest)
    ensures NonEmptyLines([first] + rest)
  {
    var lines := [first] + rest;
    forall i | 0 <= i < |lines|
      ensures |lines[i]| > 0
    {
      if i > 0 {
        assert lines[i] == rest[i - 1];
      }
    }
  }

  lemma {:induction false} ConsConcat(first: seq<Piece>, rest: seq<seq<Piece>>)
    ensures Concat([first] + rest) == first + Concat(rest)
  {
    assert ([first] + rest)[1..] == rest;
  }

  lemma {:induction false} ConcatHead(rest: seq<seq<Piece>>)
    requires |rest| > 0 && NonEmptyLines(rest)
    ensures |Concat(rest)| > 0 && Concat(rest)[0] == rest[0][0]
  {
  }

  lemma {:induction false} ConsWidth(first: seq<Piece>, rest: seq<seq<Piece>>, width: int)
    requires |first| > 0 && (|first| == 1 || |LineText(first)| <= width)
    requires NonEmptyLines(rest) && WithinWidth(rest, width)
    ensures NonEmptyLines([first] + rest) && WithinWidth([first] + rest, width)
  {
    ConsNonEmpty(first, rest);
    var lines := [first] + rest;
    forall i | 0 <= i < |lines|
      ensures |lines[i]| == 1 || |LineText(lines[i])| <= width
    {
      if i > 0 {
        assert lines[i] == rest[i - 1];
      }
    }
  }

  lemma {:induction false} ConsGreedy(first: seq<Piece>, rest: seq<seq<Piece>>, width: int)
    requires |first| > 0 && NonEmptyLines(rest) && Greedy(rest, width)
    requires |rest| > 0 ==> |LineText(first)| + |rest[0][0].gap| + |rest[0][0].word| > width
    ensures NonEmptyLines([first] + rest) && Greedy([first] + rest, width)
  {
    ConsNonEmpty(first, rest);
    var lines := [first] + rest;
    forall i | 0 <= i < |lines| - 1
      ensures |LineText(lines[i])| + |lines[i + 1][0].gap| + |lines[i + 1][0].word| > width
    {
      assert lines[i + 1] == rest[i];
      if i > 0 {
        assert lines[i] == rest[i - 1];
      }
    }
  }

  lemma {:induction false} ConsWellFormed(first: seq<Piece>, rest: seq<seq<Piece>>)
    requires WellFormed(first) && AllWellFormed(rest)
    ensures AllWellFormed([first] + rest)
  {
    var lines := [first] + rest;
    forall i | 0 <= i < |lines|
      ensures WellFormed(lines[i])
    {
      if i > 0 {
        assert lines[i] == rest[i - 1];
      }
    }
  }

  /** `chunk_content(content, width)`: the lines of the greedy packing.
      Every chunk is non-empty; it is within `width` unless it is a single
      word; and only whitespace-only content gives no chunks at all. */
  function ChunkContent(content: string, width: int): (chunks: seq<string>)
    requires width > 0
    ensures forall i :: 0 <= i < |chunks| ==> |chunks[i]| > 0
    ensures forall i :: 0 <= i < |chunks| ==> |chunks[i]| <= width || IsWord(chunks[i])
    ensures |chunks| == 0 <==> AllWrapSpace(content)
  {
    var ps := Tokenize(content);
    var lines := Pack(ps, width);
    var chunks := seq(|lines|, i requires 0 <= i < |lines| => LineText(lines[i]));
    ChunkFacts(ps, lines, width, chunks);
    chunks
  }

  lemma {:induction false} ChunkFacts(ps: seq<Piece>, lines: seq<seq<Piece>>, width: int, chunks: seq<string>)
    requires WellFormed(ps) && NonEmptyLines(lines) && WithinWidth(lines, width) && AllWellFormed(lines)
    requires |chunks| == |lines| && forall i :: 0 <= i < |lines| ==> chunks[i] == LineText(lines[i])
    ensures forall i :: 0 <= i < |chunks| ==> |chunks[i]| > 0
    ensures forall i :: 0 <= i < |chunks| ==> |chunks[i]| <= width || IsWord(chunks[i])
  {
    forall i | 0 <= i < |chunks|
      ensures |chunks[i]| > 0 && (|chunks[i]| <= width || IsWord(chunks[i]))
    {
      assert WellFormed(lines[i]);
      assert IsWord(lines[i][0].word);
      if |lines[i]| == 1 {
        assert Flatten(lines[i][1..]) == "";
        assert chunks[i] == lines[i][0].word;
      }
    }
  }

  /** The pieces behind each chunk: the packing of the content's pieces. */
  function ChunkLines(content: string, width: int): seq<seq<Piece>>
  {
    Pack(Tokenize(content), width)
  }

  lemma {:induction false} WordsOfConcat(lines: seq<seq<Piece>>)
    ensures WordsOf(Concat(lines)) == Concat(seq(|lines|, i requires 0 <= i < |lines| => WordsOf(lines[i])))
    decreases |lines|
  {
    if |lines| > 0 {
      var tail := seq(|lines| - 1, i requires 0 <= i < |lines| - 1 => WordsOf(lines[1..][i]));
      var all := seq(|lines|, i requires 0 <= i < |lines| => WordsOf(lines[i]));
      assert all[1..] == tail;
      WordsOfConcat(lines[1..]);
      assert WordsOf(lines[0] + Concat(lines[1..])) == WordsOf(lines[0]) + WordsOf(Concat(lines[1..]));
    }
  }

  /** The words of one line's text are that line's words. */
  lemma {:induction false} LineWords(line: seq<Piece>)
    requires |line| > 0 && WellFormed(line)
    ensures Words(LineText(line)) == WordsOf(line)
  {
    var first := [Piece("", line[0].word)] + line[1..];
    FirstLineWellFormed(line, first);
    assert first[1..] == line[1..];
    assert Flatten(first) == LineText(line);
    TokenizeFlatten(first);
    assert WordsOf(first) == WordsOf(line) by {
      forall i | 0 <= i < |line|
        ensures WordsOf(first)[i] == WordsOf(line)[i]
      {
        if i > 0 {
          assert first[i] == line[i];
        }
      }
    }
  }

  /** A line with its leading whitespace dropped is still well formed. */
  lemma {:induction false} FirstLineWellFormed(line: seq<Piece>, first: seq<Piece>)
    requires |line| > 0 && WellFormed(line)
    requires first == [Piece("", line[0].word)] + line[1..]
    ensures WellFormed(first)
  {
    forall i | 0 <= i < |first|
      ensures AllWrapSpace(first[i].gap) && IsWord(first[i].word) && (i > 0 ==> |first[i].gap| > 0)
    {
      if i > 0 {
        assert first[i] == line[i];
      }
    }
  }

  /** Chunking never cuts a word and keeps the text's order: the chunks'
      words, read in chunk order, are exactly the content's words. */
  lemma {:induction false} ChunkContentWords(content: string, width: int)
    requires width > 0
    ensures var chunks := ChunkContent(content, width);
            Concat(seq(|chunks|, i requires 0 <= i < |chunks| => Words(chunks[i]))) == Words(content)
  {
    var ps := Tokenize(content);
    var lines := Pack(ps, width);
    var chunks := ChunkContent(content, width);
    var byChunk := seq(|chunks|, i requires 0 <= i < |chunks| => Words(chunks[i]));
    var byLine := seq(|lines|, i requires 0 <= i < |lines| => WordsOf(lines[i]));
    assert |chunks| == |lines|;
    forall i | 0 <= i < |lines|
      ensures byChunk[i] == byLine[i]
    {
      assert chunks[i] == LineText(lines[i]);
      assert |lines[i]| > 0 && WellFormed(lines[i]);
      LineWords(lines[i]);
    }
    assert byChunk == byLine;
    WordsOfConcat(lines);
    assert Concat(lines) == ps;
    assert Words(content) == WordsOf(ps);
  }

  lemma {:induction false} FlattenLines(lines: seq<seq<Piece>>)
    requires forall i :: 0 <= i < |lines| ==> |lines[i]| > 0
    ensures Flatten(Concat(lines)) == Concat(seq(|lines|, i requires 0 <= i < |lines| => lines[i][0].gap + LineText(lines[i])))
    decreases |lines|
  {
    if |lines| > 0 {
      var all := seq(|lines|, i requires 0 <= i < |lines| => lines[i][0].gap + LineText(lines[i]));
      var tail := seq(|lines| - 1, i requires 0 <= i < |lines| - 1 => lines[1..][i][0].gap + LineText(lines[1..][i]));
      assert all[1..] == tail;
      FlattenLines(lines[1..]);
      FlattenConcat(lines[0], Concat(lines[1..]));
    }
  }

  /** The content is rebuilt by putting back, in front of each chunk, the
      whitespace run the packer dropped there, and then only whitespace is
      missing at the end: inside a chunk the original whitespace is kept. */
  lemma {:induction false} ChunkContentRebuild(content: string, width: int)
    requires width > 0
    ensures var chunks := ChunkContent(content, width);
            var lines := ChunkLines(content, width);
            var rebuilt := Concat(seq(|chunks|, i requires 0 <= i < |chunks| => lines[i][0].gap + chunks[i]));
            && |chunks| == |lines|
            && (forall i :: 0 <= i < |lines| ==> AllWrapSpace(lines[i][0].gap))
            && StartsWith(content, rebuilt)
            && AllWrapSpace(content[|rebuilt|..])
  {
    var ps := Tokenize(content);
    var lines := Pack(ps, width);
    var chunks := ChunkContent(content, width);
    FlattenLines(lines);
    var a := seq(|chunks|, i requires 0 <= i < |chunks| => lines[i][0].gap + chunks[i]);
    var b := seq(|lines|, i requires 0 <= i < |lines| => lines[i][0].gap + LineText(lines[i]));
    assert a == b;
    forall i | 0 <= i < |lines|
      ensures AllWrapSpace(lines[i][0].gap)
    {
      assert WellFormed(lines[i]);
    }
  }
}
