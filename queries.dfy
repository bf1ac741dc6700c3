/** The query registry of `analytics.py` (`load_queries`): a text file holding
    named SQL statements, each introduced by the marker `-- Q_`, e.g.

        -- Q_PIE: orders by payment type
        SELECT payment_type, COUNT(*) AS payments_count ...

    is read into a map from query key (`PIE`) to SQL body. */
module QueryRegistry {
  import opened Wrappers
  import opened Text

  /** The literal that starts each query block. */
  const MARKER: string := "-- Q_"

  datatype Entry = Entry(key: string, sql: string)

  /** What opening the query file yields: the file is absent, or its text. */
  datatype Source = Missing | Present(text: string)

  /** A stored key: non-empty, no whitespace, no colon. */
  predicate ValidKey(k: string) {
    k != [] && forall c :: c in k ==> !IsSpace(c) && c != ':'
  }

  /** A stored SQL body: non-empty, with no whitespace at either end. */
  predicate ValidBody(s: string) {
    s != [] && Trimmed(s)
  }

  predicate WellFormed(m: map<string, string>) {
    forall k :: k in m ==> ValidKey(k) && ValidBody(m[k])
  }

  /** The key in a header line: `header.split()[0].split(":")[0].strip()` of
      the stripped line. The line has a non-blank character, so `split()` has a
      first element. */
  function HeaderKey(line: string): (key: string)
    requires !AllSpace(line)
    ensures forall c :: c in key ==> !IsSpace(c) && c != ':'
  {
    var header := Strip(line);
    var words := Words(header);
    FirstPieceClean(words[0]);
    Strip(Split(words[0], ":")[0])
  }

  /** The text before the first colon of a word holds neither whitespace nor a colon. */
  lemma FirstPieceClean(word: string)
    requires NoSpace(word)
    ensures forall c :: c in Split(word, ":")[0] ==> !IsSpace(c) && c != ':'
  {
    var first := Split(word, ":")[0];
    forall c | c in first ensures !IsSpace(c) && c != ':' {
      var j :| 0 <= j < |first| && first[j] == c;
      assert first[j] == word[j];
      assert !MatchAt(first, ":", j);
      assert first[j..j + 1] == [c];
    }
  }

  /** A key followed by nothing or by a colon is the first piece of the split on ":". */
  lemma FirstPieceOfKey(key: string, w: string)
    requires ValidKey(key) && (w == [] || w[0] == ':')
    ensures Split(key + w, ":")[0] == key
  {
    forall j | 0 <= j < |key| ensures !MatchAt(key + w, ":", j) {
      assert key[j] in key;
      assert (key + w)[j..j + 1] == [key[j]];
    }
    SplitPrefix(key, w, ":");
    if w != [] {
      assert w == ":" + w[1..];
      SplitAfterSeparator(w[1..], ":");
    }
    assert key + Split(w, ":")[0] == key;
  }

  /** `word` is `key` followed by nothing or by text starting with a colon. */
  predicate KeyThenColon(word: string, key: string) {
    |key| <= |word| && word[..|key|] == key
    && (|word| == |key| || word[|key|] == ':')
  }

  /** The first word of the stripped header is the key, cut off by the
      whitespace or the colon that follows it. */
  lemma HeaderFirstWord(key: string, rest: string)
    requires ValidKey(key) && (rest == [] || IsSpace(rest[0]) || rest[0] == ':')
    ensures !AllSpace(key + rest) && KeyThenColon(Words(Strip(key + rest))[0], key)
  {
    ValidKeyClean(key);
    var line := key + rest;
    assert line[0] == key[0];
    StripKeepsFront(key, rest);
    var header := Strip(line);
    var tail := rest[..|header| - |key|];
    assert header == key + tail;
    assert header[0] == key[0];
    WordPrefixOfFront(key, tail);
    var w := WordPrefix(tail);
    assert w != [] ==> w[0] == tail[0] && tail[0] == rest[0];
    assert (key + w)[..|key|] == key;
  }

  /** A header line written as the key followed by nothing, by whitespace or by
      a colon (`PIE: orders by payment type`) yields exactly that key. */
  lemma HeaderKeyOfHeader(key: string, rest: string)
    requires ValidKey(key) && (rest == [] || IsSpace(rest[0]) || rest[0] == ':')
    ensures !AllSpace(key + rest) && HeaderKey(key + rest) == key
  {
    HeaderFirstWord(key, rest);
    KeyWordPiece(key, Words(Strip(key + rest))[0]);
  }

  /** Such a word reads back as the key once cut at the colon and stripped. */
  lemma KeyWordPiece(key: string, word: string)
    requires ValidKey(key) && KeyThenColon(word, key)
    ensures Strip(Split(word, ":")[0]) == key
  {
    var w := word[|key|..];
    assert word == key + w;
    FirstPieceOfKey(key, w);
    ValidKeyClean(key);
    StripTrimmed(key);
  }

  /** One block of the file, as the loop body of `load_queries` treats it: strip
      it, skip it when empty, take the key from the first line and the body from
      the remaining lines joined with `\n` and stripped; keep the pair when both
      are non-empty. */
  function ParseBlock(block: string): (r: Option<Entry>)
    ensures r.Some? ==> ValidKey(r.value.key) && ValidBody(r.value.sql)
  {
    var b := Strip(block);
    if b == [] then
      None
    else
      var lines := SplitLines(b);
      assert !AllSpace(lines[0]) by {
        LineBreakIsSpace(b[0]);
        assert lines[0][0] == b[0];
      }
      var key := HeaderKey(lines[0]);
      var sql := Strip(JoinLines(lines[1..]));
      if key != [] && sql != [] then Some(Entry(key, sql)) else None
  }

  /** The entries the blocks yield, in file order. */
  function Entries(blocks: seq<string>): seq<Entry> {
    if blocks == [] then []
    else
      var last := ParseBlock(blocks[|blocks| - 1]);
      Entries(blocks[..|blocks| - 1]) + (if last.Some? then [last.value] else [])
  }

  /** Inserting the entries one after another into an empty map. */
  function ToMap(entries: seq<Entry>): map<string, string> {
    if entries == [] then map[]
    else
      var e := entries[|entries| - 1];
      ToMap(entries[..|entries| - 1])[e.key := e.sql]
  }

  /** The registry a file text yields. */
  function Parse(text: string): map<string, string> {
    ToMap(Entries(Split(text, MARKER)))
  }

  /** `load_queries`: a missing file gives the empty registry; otherwise the
      text is split at the marker and the blocks are parsed in order, a later
      block overwriting an earlier one with the same key. */
  method LoadQueries(source: Source) returns (queries: map<string, string>)
    ensures source.Missing? ==> queries == map[]
    ensures source.Present? ==> queries == Parse(source.text)
    ensures WellFormed(queries)
  {
    queries := map[];
    if source.Missing? {
      return;
    }
    var blocks := Split(source.text, MARKER);
    for i := 0 to |blocks|
      invariant queries == ToMap(Entries(blocks[..i]))
      invariant WellFormed(queries)
    {
      var parsed := ParseBlock(blocks[i]);
      EntriesStep(blocks, i);
      if parsed.Some? {
        ToMapStep(Entries(blocks[..i]), parsed.value);
        StoreKeepsWellFormed(queries, parsed.value);
        queries := queries[parsed.value.key := parsed.value.sql];
      } else {
        assert Entries(blocks[..i + 1]) == Entries(blocks[..i]);
      }
    }
    assert blocks[..|blocks|] == blocks;
  }

  lemma EntriesStep(blocks: seq<string>, i: nat)
    requires i < |blocks|
    ensures var p := ParseBlock(blocks[i]);
      Entries(blocks[..i + 1]) == Entries(blocks[..i]) + (if p.Some? then [p.value] else [])
  {
    assert blocks[..i + 1][..i] == blocks[..i];
  }

  lemma StoreKeepsWellFormed(m: map<string, string>, e: Entry)
    requires WellFormed(m) && ValidKey(e.key) && ValidBody(e.sql)
    ensures WellFormed(m[e.key := e.sql])
  {
  }

  lemma ToMapStep(entries: seq<Entry>, e: Entry)
    ensures ToMap(entries + [e]) == ToMap(entries)[e.key := e.sql]
  {
    assert (entries + [e])[..|entries|] == entries;
  }

  // ------------------------------------------------------------ last wins

  /** The keys of the map are the keys of the entries, and a key maps to the
      body of the last entry that has it. */
  lemma {:induction false} ToMapLastWins(entries: seq<Entry>)
    ensures forall k :: k in ToMap(entries) <==> exists i :: 0 <= i < |entries| && entries[i].key == k
    ensures forall i :: 0 <= i < |entries| && (forall j :: i < j < |entries| ==> entries[j].key != entries[i].key) ==>
      ToMap(entries)[entries[i].key] == entries[i].sql
  {
    if entries != [] {
      var n := |entries| - 1;
      var init := entries[..n];
      ToMapLastWins(init);
      forall k ensures k in ToMap(entries) <==> exists i :: 0 <= i < |entries| && entries[i].key == k {
        if k in ToMap(init) {
          var i :| 0 <= i < |init| && init[i].key == k;
          assert entries[i] == init[i];
        }
        if exists i :: 0 <= i < |entries| && entries[i].key == k {
          var i :| 0 <= i < |entries| && entries[i].key == k;
          if i < n {
            assert init[i] == entries[i];
          }
        }
      }
      forall i | 0 <= i < |entries| && (forall j :: i < j < |entries| ==> entries[j].key != entries[i].key)
        ensures ToMap(entries)[entries[i].key] == entries[i].sql
      {
        if i < n {
          assert init[i] == entries[i];
          assert forall j :: i < j < |init| ==> init[j] == entries[j];
        }
      }
    }
  }

  /** The registry of any text: its keys are those of the accepted blocks, and
      each maps to the body of the last accepted block with that key. */
  lemma ParseLastWins(text: string)
    ensures var es := Entries(Split(text, MARKER));
      && (forall k :: k in Parse(text) <==> exists i :: 0 <= i < |es| && es[i].key == k)
      && (forall i :: 0 <= i < |es| && (forall j :: i < j < |es| ==> es[j].key != es[i].key) ==>
            Parse(text)[es[i].key] == es[i].sql)
  {
    ToMapLastWins(Entries(Split(text, MARKER)));
  }

  // ------------------------------------------------------------ round trip

  /** An entry as it is written in a query file. */
  function Block(e: Entry): string {
    e.key + "\n" + e.sql + "\n"
  }

  /** A query file holding the entries in order. */
  function Serialize(entries: seq<Entry>): string {
    if entries == [] then "" else MARKER + Block(entries[0]) + Serialize(entries[1..])
  }

  /** An entry that a file can hold: a valid key, and a trimmed non-empty body
      that does not contain the marker and breaks lines only with `\n`. */
  predicate Writable(e: Entry) {
    ValidKey(e.key) && ValidBody(e.sql) && NoMatch(e.sql, MARKER) && UnixLines(e.sql)
  }

  /** Stripping a written entry removes only its final line feed. */
  lemma StripBlock(e: Entry)
    requires Writable(e)
    ensures Strip(Block(e)) == e.key + "\n" + e.sql
  {
    var t := e.key + "\n" + e.sql;
    assert Block(e) == t + "\n";
    assert t[0] == e.key[0] && t[|t| - 1] == e.sql[|e.sql| - 1];
    StripTrailingSpace(t, "\n");
  }

  /** The first line of a stripped entry is its key; the other lines are those
      of its body. */
  lemma LinesOfStrippedBlock(key: string, sql: string)
    requires ValidKey(key)
    ensures SplitLines(key + "\n" + sql) == [key] + SplitLines(sql)
  {
    var t := key + "\n" + sql;
    forall i | 0 <= i < |key| ensures !IsLineBreak(t[i]) {
      assert t[i] == key[i];
      assert key[i] in key;
      LineBreakIsSpace(key[i]);
    }
    assert t[|key|] == '\n';
    assert LineEnd(t) == |key|;
    assert t[..|key|] == key && t[|key| + 1..] == sql;
  }

  /** A valid key has no whitespace, in particular none at its ends, and no colon. */
  lemma ValidKeyClean(key: string)
    requires ValidKey(key)
    ensures !AllSpace(key) && Trimmed(key) && NoSpace(key) && NoMatch(key, ":")
  {
    assert key[0] in key;
    assert key[|key| - 1] in key;
    assert NoSpace(key) by {
      forall i | 0 <= i < |key| ensures !IsSpace(key[i]) {
        assert key[i] in key;
      }
    }
    assert NoMatch(key, ":") by {
      forall j | 0 <= j <= |key| ensures !MatchAt(key, ":", j) {
        if j + 1 <= |key| {
          assert key[j] in key;
          assert key[j..j + 1] == [key[j]];
        }
      }
    }
  }

  /** A valid key is its own header key. */
  lemma HeaderKeyOfKey(key: string)
    requires ValidKey(key)
    ensures !AllSpace(key) && HeaderKey(key) == key
  {
    ValidKeyClean(key);
    StripTrimmed(key);
    WordsOfWord(key);
    SplitNoMatch(key, ":");
  }

  /** A written entry parses back to itself. */
  lemma ParseBlockOfBlock(e: Entry)
    requires Writable(e)
    ensures ParseBlock(Block(e)) == Some(e)
  {
    StripBlock(e);
    LinesOfStrippedBlock(e.key, e.sql);
    var lines := [e.key] + SplitLines(e.sql);
    assert lines[0] == e.key && lines[1..] == SplitLines(e.sql);
    HeaderKeyOfKey(e.key);
    JoinSplitLines(e.sql);
    StripTrimmed(e.sql);
  }

  /** The marker never starts inside a written entry. */
  lemma NoMarkerInBlock(e: Entry, rest: string)
    requires Writable(e)
    ensures forall j :: 0 <= j < |Block(e)| ==> !MatchAt(Block(e) + rest, MARKER, j)
  {
    var b := Block(e);
    var s := b + rest;
    var k := |e.key|;
    var n := |b|;
    assert s[k] == '\n' && s[n - 1] == '\n';
    forall j | 0 <= j < n ensures !MatchAt(s, MARKER, j) {
      if j + 5 <= |s| {
        var w := s[j..j + 5];
        if j <= k <= j + 4 {
          assert w[k - j] == '\n';
        } else if j <= n - 1 <= j + 4 {
          assert w[n - 1 - j] == '\n';
        } else if j + 4 < k {
          assert w[2] == e.key[j + 2];
          assert e.key[j + 2] in e.key;
        } else {
          var i := j - k - 1;
          assert w == e.sql[i..i + 5];
          assert !MatchAt(e.sql, MARKER, i);
        }
      }
    }
  }

  function Blocks(entries: seq<Entry>): seq<string> {
    seq(|entries|, i requires 0 <= i < |entries| => Block(entries[i]))
  }

  lemma BlocksCons(entries: seq<Entry>)
    requires entries != []
    ensures Blocks(entries) == [Block(entries[0])] + Blocks(entries[1..])
  {
  }

  lemma PiecesCons(pieces: seq<string>, after: seq<string>, b: string, ts: seq<string>, blocks: seq<string>)
    requires ts == [""] + blocks && pieces == [""] + after && after == [b + ts[0]] + ts[1..]
    ensures pieces == [""] + ([b] + blocks)
  {
    assert b + ts[0] == b;
  }

  /** A written file splits into an empty preamble and one block per entry. */
  lemma {:induction false} SplitSerialize(entries: seq<Entry>)
    requires forall i :: 0 <= i < |entries| ==> Writable(entries[i])
    ensures Split(Serialize(entries), MARKER) == [""] + Blocks(entries)
  {
    if entries != [] {
      var e, rest := entries[0], entries[1..];
      var b, tail := Block(e), Serialize(rest);
      assert Serialize(entries) == MARKER + (b + tail);
      SplitAfterSeparator(b + tail, MARKER);
      NoMarkerInBlock(e, tail);
      SplitPrefix(b, tail, MARKER);
      SplitSerialize(rest);
      PiecesCons(Split(Serialize(entries), MARKER), Split(b + tail, MARKER), b, Split(tail, MARKER), Blocks(rest));
      BlocksCons(entries);
    }
  }

  /** The empty text before the first marker yields no entry. */
  lemma EntriesOfPreamble()
    ensures Entries([""]) == []
  {
    var bs: seq<string> := [""];
    assert Strip("") == "";
    EntriesStep(bs, 0);
    assert bs[..0] == [] && bs[..1] == bs;
  }

  lemma EntriesSnoc(blocks: seq<string>, b: string)
    ensures var p := ParseBlock(b);
      Entries(blocks + [b]) == Entries(blocks) + (if p.Some? then [p.value] else [])
  {
    var bs := blocks + [b];
    assert bs[|bs| - 1] == b && bs[..|bs| - 1] == blocks;
  }

  lemma BlocksSnoc(entries: seq<Entry>, e: Entry)
    ensures [""] + Blocks(entries + [e]) == ([""] + Blocks(entries)) + [Block(e)]
  {
  }

  /** The blocks of the first `n` written entries give back those entries, in order. */
  lemma {:induction false} EntriesOfBlocks(entries: seq<Entry>, n: nat)
    requires n <= |entries|
    requires forall i :: 0 <= i < |entries| ==> Writable(entries[i])
    ensures Entries([""] + Blocks(entries[..n])) == entries[..n]
  {
    if n == 0 {
      assert [""] + Blocks(entries[..0]) == [""];
      EntriesOfPreamble();
    } else {
      var init, e := entries[..n - 1], entries[n - 1];
      assert entries[..n] == init + [e];
      var prev := [""] + Blocks(init);
      BlocksSnoc(init, e);
      EntriesSnoc(prev, Block(e));
      ParseBlockOfBlock(e);
      EntriesOfBlocks(entries, n - 1);
    }
  }

  /** Parsing a written file recovers exactly the written entries, the last
      entry winning when keys repeat. */
  lemma EntriesOfSerialize(entries: seq<Entry>)
    requires forall i :: 0 <= i < |entries| ==> Writable(entries[i])
    ensures Entries(Split(Serialize(entries), MARKER)) == entries
  {
    SplitSerialize(entries);
    EntriesOfAllBlocks(entries);
  }

  lemma EntriesOfAllBlocks(entries: seq<Entry>)
    requires forall i :: 0 <= i < |entries| ==> Writable(entries[i])
    ensures Entries([""] + Blocks(entries)) == entries
  {
    EntriesOfBlocks(entries, |entries|);
    assert entries[..|entries|] == entries;
  }

  lemma RoundTrip(entries: seq<Entry>)
    requires forall i :: 0 <= i < |entries| ==> Writable(entries[i])
    ensures Parse(Serialize(entries)) == ToMap(entries)
  {
    EntriesOfSerialize(entries);
  }
}
