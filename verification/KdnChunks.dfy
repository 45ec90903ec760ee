/** The chunk hash in the name of a cache file, and what a scan imports, told from the file names. */
module KdnChunks {
  import opened KdnHistory
  import opened KdnIndex
  import opened KdnKeys
  import opened Options
  import opened Sequences

  // ----- fields of a name ----------------------------------------------------------------------

  lemma {:induction false} SplitPlain(s: string)
    requires '@' !in s
    ensures SplitAt(s) == [s]
  {
    if s != [] {
      SplitPlain(s[1..]);
      assert [s[0]] + s[1..] == s;
    }
  }

  lemma {:induction false} SplitFirst(field: string, rest: string)
    requires '@' !in field
    ensures SplitAt(field + "@" + rest) == [field] + SplitAt(rest)
  {
    var s := field + "@" + rest;
    if field == [] {
      assert s[1..] == rest;
    } else {
      assert s[1..] == field[1..] + "@" + rest;
      SplitFirst(field[1..], rest);
      assert [field[0]] + field[1..] == field;
    }
  }

  lemma {:induction false} SplitCount(s: string)
    ensures |SplitAt(s)| == multiset(s)['@'] + 1
  {
    if s != [] {
      SplitCount(s[1..]);
      assert s == [s[0]] + s[1..];
    }
  }

  predicate Plain(field: string) {
    '@' !in field
  }

  /** The name starts with the five fields, and either ends there or goes on after another '@'. */
  predicate FiveFields(stem: string, a: string, b: string, c: string, d: string, h: string) {
    && Plain(a) && Plain(b) && Plain(c) && Plain(d) && Plain(h)
    && var five := a + "@" + (b + "@" + (c + "@" + (d + "@" + h)));
       stem == five || five + "@" <= stem
  }

  /** The chunk a file name stands for: its fifth field, or the whole name if it has fewer than four '@'. */
  ghost predicate NamesChunk(stem: string, h: string) {
    || (multiset(stem)['@'] < 4 && stem == h)
    || exists a, b, c, d :: FiveFields(stem, a, b, c, d, h)
  }

  lemma FourFirst(a: string, b: string, c: string, d: string, rest: string)
    requires Plain(a) && Plain(b) && Plain(c) && Plain(d)
    ensures SplitAt(a + "@" + (b + "@" + (c + "@" + (d + "@" + rest)))) == [a, b, c, d] + SplitAt(rest)
  {
    SplitFirst(d, rest);
    SplitFirst(c, d + "@" + rest);
    SplitFirst(b, c + "@" + (d + "@" + rest));
    SplitFirst(a, b + "@" + (c + "@" + (d + "@" + rest)));
  }

  lemma FifthOf(stem: string, a: string, b: string, c: string, d: string, h: string)
    requires FiveFields(stem, a, b, c, d, h)
    ensures ChunkHash(stem) == h
  {
    var five := a + "@" + (b + "@" + (c + "@" + (d + "@" + h)));
    if stem == five {
      SplitPlain(h);
      FourFirst(a, b, c, d, h);
    } else {
      var rest := stem[|five| + 1..];
      assert stem == a + "@" + (b + "@" + (c + "@" + (d + "@" + (h + "@" + rest))));
      SplitFirst(h, rest);
      FourFirst(a, b, c, d, h + "@" + rest);
    }
  }

  /** A name with an '@' is its first field, the '@' and the rest. */
  lemma {:induction false} FirstField(s: string) returns (field: string, rest: string)
    requires '@' in s
    ensures Plain(field) && s == field + "@" + rest && multiset(rest)['@'] == multiset(s)['@'] - 1
  {
    assert s == [s[0]] + s[1..];
    if s[0] == '@' {
      field, rest := "", s[1..];
    } else {
      var f, r := FirstField(s[1..]);
      field, rest := [s[0]] + f, r;
    }
  }

  lemma HasAt(s: string)
    requires multiset(s)['@'] > 0
    ensures '@' in s
  {
    assert '@' in multiset(s);
  }

  lemma FourFields(stem: string) returns (a: string, b: string, c: string, d: string, u: string)
    requires multiset(stem)['@'] >= 4
    ensures Plain(a) && Plain(b) && Plain(c) && Plain(d)
    ensures stem == a + "@" + (b + "@" + (c + "@" + (d + "@" + u)))
  {
    var r, s, t;
    HasAt(stem);
    a, r := FirstField(stem);
    HasAt(r);
    b, s := FirstField(r);
    HasAt(s);
    c, t := FirstField(s);
    HasAt(t);
    d, u := FirstField(t);
  }

  lemma ThenRest(a: string, b: string, c: string, d: string, h: string, rest: string)
    ensures a + "@" + (b + "@" + (c + "@" + (d + "@" + h))) + "@"
            <= a + "@" + (b + "@" + (c + "@" + (d + "@" + (h + "@" + rest))))
  {
    assert a + "@" + (b + "@" + (c + "@" + (d + "@" + (h + "@" + rest))))
           == (a + "@" + (b + "@" + (c + "@" + (d + "@" + h))) + "@") + rest;
  }

  lemma SomeFifth(stem: string) returns (h: string)
    requires multiset(stem)['@'] >= 4
    ensures NamesChunk(stem, h) && ChunkHash(stem) == h
  {
    var a, b, c, d, u := FourFields(stem);
    if multiset(u)['@'] > 0 {
      var rest;
      HasAt(u);
      h, rest := FirstField(u);
      ThenRest(a, b, c, d, h, rest);
    } else {
      h := u;
      assert '@' !in u by { assert '@' !in multiset(u); }
    }
    assert FiveFields(stem, a, b, c, d, h);
    FifthOf(stem, a, b, c, d, h);
  }

  /** Every name stands for exactly one chunk, the one the server computes. */
  lemma ChunkHashIff(stem: string, h: string)
    ensures NamesChunk(stem, h) <==> ChunkHash(stem) == h
  {
    SplitCount(stem);
    if a, b, c, d :| FiveFields(stem, a, b, c, d, h) {
      FifthOf(stem, a, b, c, d, h);
    }
    if multiset(stem)['@'] >= 4 {
      var fifth := SomeFifth(stem);
    }
  }

  // ----- what a scan imports -------------------------------------------------------------------

  /** The chunks of the first `n` files that are not indexed yet. */
  function NewChunks(index: Index, listing: seq<PtFile>, n: nat): set<string>
    requires n <= |listing|
  {
    if n == 0 then {}
    else
      var h := ChunkHash(listing[n - 1].stem);
      NewChunks(index, listing, n - 1) + if ChunkKey(h) in index then {} else {h}
  }

  lemma {:induction false} NewChunksByHash(index: Index, listing: seq<PtFile>, n: nat, h: string)
    requires n <= |listing|
    ensures h in NewChunks(index, listing, n)
            <==> ChunkKey(h) !in index && exists i :: 0 <= i < n && ChunkHash(listing[i].stem) == h
  {
    if n > 0 { NewChunksByHash(index, listing, n - 1, h); }
  }

  lemma NewChunksMembers(index: Index, listing: seq<PtFile>, n: nat, h: string)
    requires n <= |listing|
    ensures h in NewChunks(index, listing, n)
            <==> ChunkKey(h) !in index && exists i :: 0 <= i < n && NamesChunk(listing[i].stem, h)
  {
    NewChunksByHash(index, listing, n, h);
    forall i | 0 <= i < n ensures NamesChunk(listing[i].stem, h) <==> ChunkHash(listing[i].stem) == h {
      ChunkHashIff(listing[i].stem, h);
    }
  }

  lemma {:induction false} SeenBefore(index: Index, op: Op, node: string, n: nat, h: string)
    requires op.Scan? && n <= |op.listing| == |op.ids|
    ensures ChunkKey(h) in Scanned(index, op, node, n) <==> ChunkKey(h) in index || h in NewChunks(index, op.listing, n)
  {
    if n > 0 {
      SeenBefore(index, op, node, n - 1, h);
      ChunkKeysApart(0, "", h, ChunkHash(op.listing[n - 1].stem));
    }
  }

  lemma {:induction false} NewChunksNotIndexed(index: Index, listing: seq<PtFile>, n: nat, h: string)
    requires n <= |listing|
    ensures h in NewChunks(index, listing, n) ==> ChunkKey(h) !in index
  {
    if n > 0 { NewChunksNotIndexed(index, listing, n - 1, h); }
  }

  lemma SizeWithOne(s: set<string>, x: string)
    ensures |s + {x}| == |s| + if x in s then 0 else 1
  {
    if x in s { assert s + {x} == s; }
  }

  lemma NewChunksStep(index: Index, listing: seq<PtFile>, n: nat)
    requires 0 < n <= |listing|
    ensures var h, before := ChunkHash(listing[n - 1].stem), NewChunks(index, listing, n - 1);
            |NewChunks(index, listing, n)| == |before| + if ChunkKey(h) in index || h in before then 0 else 1
  {
    var h, before := ChunkHash(listing[n - 1].stem), NewChunks(index, listing, n - 1);
    NewChunksNotIndexed(index, listing, n - 1, h);
    SizeWithOne(before, h);
    assert before + {} == before;
  }

  lemma {:induction false} ImportedIsNewChunks(index: Index, op: Op, node: string, n: nat)
    requires op.Scan? && n <= |op.listing| == |op.ids|
    ensures Imported(index, op, node, n) == |NewChunks(index, op.listing, n)|
  {
    if n > 0 {
      ImportedIsNewChunks(index, op, node, n - 1);
      SeenBefore(index, op, node, n - 1, ChunkHash(op.listing[n - 1].stem));
      NewChunksStep(index, op.listing, n);
    }
  }

  /** The key under which a scan files a chunk. */
  predicate FiledUnder(k: string, h: string) {
    k == "lmcache_chunk:" + h
  }

  lemma ChunkKeyText(h: string)
    ensures FiledUnder(ChunkKey(h), h)
  {
  }

  lemma {:induction false} AddedChunk(index: Index, op: Op, node: string, n: nat, k: string) returns (h: string)
    requires op.Scan? && n <= |op.listing| == |op.ids| && k in Scanned(index, op, node, n) && k !in index
    ensures h in NewChunks(index, op.listing, n) && k == ChunkKey(h)
  {
    if k in Scanned(index, op, node, n - 1) {
      h := AddedChunk(index, op, node, n - 1, k);
    } else {
      h := ChunkHash(op.listing[n - 1].stem);
    }
  }

  lemma ScannedKeyIff(index: Index, op: Op, node: string, n: nat, k: string)
    requires op.Scan? && n <= |op.listing| == |op.ids|
    ensures k in Scanned(index, op, node, n)
            <==> k in index || exists h :: h in NewChunks(index, op.listing, n) && FiledUnder(k, h)
  {
    if k in index {
      ScanKeepsEntries(index, op, node, n, k);
    } else {
      if k in Scanned(index, op, node, n) {
        var h := AddedChunk(index, op, node, n, k);
        ChunkKeyText(h);
      }
      if h :| h in NewChunks(index, op.listing, n) && FiledUnder(k, h) {
        ChunkKeyText(h);
        SeenBefore(index, op, node, n, h);
      }
    }
  }

  /** A scan imports exactly one entry for each chunk that some file name stands for and that is not indexed
      yet, however many files share it. */
  lemma ScanImportsEachChunkOnce(index: Index, op: Op, node: string) returns (chunks: set<string>)
    requires op.Scan? && |op.listing| == |op.ids|
    ensures forall h :: h in chunks <==> "lmcache_chunk:" + h !in index
                                         && exists i :: 0 <= i < |op.listing| && NamesChunk(op.listing[i].stem, h)
    ensures Imported(index, op, node, |op.listing|) == |chunks|
    ensures forall k :: k in Scanned(index, op, node, |op.listing|)
                        <==> k in index || exists h :: h in chunks && FiledUnder(k, h)
  {
    chunks := NewChunks(index, op.listing, |op.listing|);
    forall h ensures h in chunks <==> "lmcache_chunk:" + h !in index
                                      && exists i :: 0 <= i < |op.listing| && NamesChunk(op.listing[i].stem, h)
    {
      NewChunksMembers(index, op.listing, |op.listing|, h);
      ChunkKeyText(h);
    }
    ImportedIsNewChunks(index, op, node, |op.listing|);
    forall k ensures k in Scanned(index, op, node, |op.listing|)
                     <==> k in index || exists h :: h in chunks && FiledUnder(k, h)
    {
      ScannedKeyIff(index, op, node, |op.listing|, k);
    }
  }

  lemma {:induction false} EntryByHash(index: Index, op: Op, node: string, n: nat, f: nat, h: string)
    requires op.Scan? && f < n <= |op.listing| == |op.ids| && ChunkKey(h) !in index
    requires ChunkHash(op.listing[f].stem) == h && forall g :: 0 <= g < f ==> ChunkHash(op.listing[g].stem) != h
    ensures ChunkKey(h) in Scanned(index, op, node, n)
    ensures Scanned(index, op, node, n)[ChunkKey(h)] == ScannedEntry(op.listing[f], op, op.ids[f], node)
  {
    if n - 1 == f {
      SeenBefore(index, op, node, f, h);
      NewChunksByHash(index, op.listing, f, h);
    } else {
      EntryByHash(index, op, node, n - 1, f, h);
    }
  }

  /** The entry a scan leaves for a new chunk: ready, without an expiry, with the path and the time of the
      first file that stands for it. */
  lemma ScanEntryInFields(index: Index, op: Op, node: string, f: nat, h: string)
    requires op.Scan? && f < |op.listing| == |op.ids| && "lmcache_chunk:" + h !in index
    requires NamesChunk(op.listing[f].stem, h) && forall g :: 0 <= g < f ==> !NamesChunk(op.listing[g].stem, h)
    ensures var key, after := "lmcache_chunk:" + h, Scanned(index, op, node, |op.listing|);
            && key in after
            && after[key] == Entry(op.ids[f], None, op.model, op.routeKey, HintOf(None, node), Given(Some(op.ms)),
                                   Some(h), Some(op.listing[f].path), None, None, op.listing[f].mtime, Ready)
  {
    ChunkKeyText(h);
    forall g | 0 <= g <= f ensures NamesChunk(op.listing[g].stem, h) <==> ChunkHash(op.listing[g].stem) == h {
      ChunkHashIff(op.listing[g].stem, h);
    }
    EntryByHash(index, op, node, |op.listing|, f, h);
  }
}
