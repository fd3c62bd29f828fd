/**
 * The file-system image store (internal/storage/storage.go). An image with id
 * `id` lives at a path below the base directory that shards the id into
 * two-byte directory names: "123456" is stored as 12/34/56.webp. Listing
 * walks the tree and turns every ".webp" file's relative path back into an id.
 *
 * Go strings are byte sequences and `getPath` measures and slices them by
 * byte, so this module works on the UTF-8 bytes of an id (`Utf8`): an id
 * whose characters take several bytes each is cut between bytes, possibly in
 * the middle of a character.
 *
 * Paths are sequences of names (the base directory first); the relative path
 * a directory walk reports is those names joined with '/', the separator on
 * the platforms the service targets. `filepath.Join` cleans the path it
 * builds, so a ".." directory piece climbs one level up (`Clean`). The file
 * system itself is a map from paths to contents.
 */
module Storage {
  import opened Common
  import opened Images

  /** ".webp" */
  const Suffix: Bytes := [0x2E, 0x77, 0x65, 0x62, 0x70]
  /** '/' */
  const Separator: byte := 0x2F
  /** "." and "..", the names `filepath.Clean` interprets. */
  const Dot: Bytes := [0x2E]
  const DotDot: Bytes := [0x2E, 0x2E]

  function Min(a: int, b: int): int {
    if a < b then a else b
  }

  /** The UTF-8 encoding of one character. */
  function EncodeChar(c: char): (r: Bytes)
    ensures 1 <= |r| <= 4
    ensures c as int < 0x80 ==> r == [c as int as byte]
    ensures c as int >= 0x80 ==> forall k :: 0 <= k < |r| ==> r[k] >= 0x80
  {
    var n := c as int;
    if n < 0x80 then [n as byte]
    else if n < 0x800 then [(0xC0 + n / 0x40) as byte, (0x80 + n % 0x40) as byte]
    else if n < 0x1_0000 then
      [(0xE0 + n / 0x1000) as byte, (0x80 + n / 0x40 % 0x40) as byte, (0x80 + n % 0x40) as byte]
    else
      [(0xF0 + n / 0x4_0000) as byte, (0x80 + n / 0x1000 % 0x40) as byte,
       (0x80 + n / 0x40 % 0x40) as byte, (0x80 + n % 0x40) as byte]
  }

  /** The bytes of a Go string holding `s`. */
  function Utf8(s: string): (r: Bytes)
    ensures |s| <= |r| <= 4 * |s|
  {
    if s == [] then [] else EncodeChar(s[0]) + Utf8(s[1..])
  }

  /** An ASCII string is its own bytes, one byte per character. */
  lemma {:induction false} Utf8Ascii(s: string)
    requires forall k :: 0 <= k < |s| ==> s[k] as int < 0x80
    ensures |Utf8(s)| == |s|
    ensures forall k :: 0 <= k < |s| ==> Utf8(s)[k] == s[k] as int as byte
  {
    if s != [] {
      Utf8Ascii(s[1..]);
      assert Utf8(s) == [s[0] as int as byte] + Utf8(s[1..]);
    }
  }

  /** The id's bytes hold the separator exactly when the id holds '/'. */
  lemma {:induction false} Utf8Separator(s: string)
    ensures Separator in Utf8(s) <==> '/' in s
  {
    if s != [] {
      Utf8Separator(s[1..]);
      assert s == [s[0]] + s[1..];
      assert Separator in EncodeChar(s[0]) <==> s[0] == '/';
    }
  }

  /**
   * The id cut into consecutive two-byte pieces, front to back; only the
   * last piece can be a single byte.
   */
  function Chunks(id: Bytes): (r: seq<Bytes>)
    ensures |r| == (|id| + 1) / 2
    decreases |id|
  {
    if |id| == 0 then []
    else if |id| <= 2 then [id]
    else [id[..2]] + Chunks(id[2..])
  }

  /** Piece `k` is the slice of the id starting at byte `2 * k`, two bytes long or up to the end. */
  lemma {:induction false} ChunkAt(id: Bytes, k: nat)
    requires k < |Chunks(id)|
    ensures Chunks(id)[k] == id[2 * k .. Min(2 * k + 2, |id|)]
    decreases |id|
  {
    if k > 0 {
      var rest := id[2..];
      assert Chunks(id) == [id[..2]] + Chunks(rest);
      ChunkAt(rest, k - 1);
      var lo, hi := 2 * (k - 1), Min(2 * (k - 1) + 2, |rest|);
      assert hi + 2 == Min(2 * k + 2, |id|);
      assert forall j :: 0 <= j < hi - lo ==> rest[lo..hi][j] == id[lo + 2..hi + 2][j];
      assert rest[lo..hi] == id[2 * k .. Min(2 * k + 2, |id|)];
    } else {
      assert id[0 .. Min(2, |id|)] == if |id| <= 2 then id else id[..2];
    }
  }

  /** Names below the base directory for `id`, before cleaning: directories, then the file name. */
  function Layout(id: Bytes): (r: seq<Bytes>)
    ensures |r| >= 1 && HasSuffix(r[|r| - 1], Suffix)
    ensures forall k :: 0 <= k < |r| - 1 ==> |r[k]| == 2
  {
    if |id| < 2 then
      EndsWithSuffix(id);
      [id + Suffix]
    else
      EndsWithSuffix(Chunks(id)[|Chunks(id)| - 1]);
      ChunkLengths(id);
      FileNamed(Chunks(id))
  }

  /** The pieces with ".webp" put after the last one, which names the file. */
  function FileNamed(c: seq<Bytes>): seq<Bytes>
    requires |c| > 0
  {
    c[..|c| - 1] + [c[|c| - 1] + Suffix]
  }

  /** Pieces glued together with nothing between them. */
  function Concat(parts: seq<Bytes>): Bytes {
    if parts == [] then [] else parts[0] + Concat(parts[1..])
  }

  /** `s` with every occurrence of `c` deleted (strings.ReplaceAll with ""). */
  function RemoveAll(s: Bytes, c: byte): (r: Bytes)
    ensures c !in r
    ensures forall x :: x in s && x != c ==> x in r
  {
    if s == [] then []
    else (if s[0] == c then [] else [s[0]]) + RemoveAll(s[1..], c)
  }

  predicate HasSuffix(s: Bytes, suffix: Bytes) {
    |suffix| <= |s| && s[|s| - |suffix|..] == suffix
  }

  function TrimSuffix(s: Bytes, suffix: Bytes): Bytes {
    if HasSuffix(s, suffix) then s[..|s| - |suffix|] else s
  }

  /** The relative path, with '/' separators, that `Layout(id)` spells before cleaning. */
  function RelPath(id: Bytes): (r: Bytes)
    ensures HasSuffix(r, Suffix)
  {
    RelPathShape(id);
    JoinWith(Layout(id), Separator)
  }

  /** `List`'s reconstruction: drop the ".webp" suffix, then every separator. */
  function IdFromRelPath(rel: Bytes): (r: Bytes)
    ensures Separator !in r
    ensures |r| <= |rel|
  {
    RemoveAllShorter(TrimSuffix(rel, Suffix), Separator);
    RemoveAll(TrimSuffix(rel, Suffix), Separator)
  }

  lemma {:induction false} RemoveAllShorter(s: Bytes, c: byte)
    ensures |RemoveAll(s, c)| <= |s|
  {
    if s != [] {
      RemoveAllShorter(s[1..], c);
    }
  }

  /**
   * One step of `filepath.Clean`'s scan over the names of a relative path:
   * empty names and "." vanish, ".." removes the name before it unless that
   * is itself "..", and a leading ".." stays.
   */
  function CleanStep(kept: seq<Bytes>, name: Bytes): seq<Bytes> {
    if name == [] || name == Dot then kept
    else if name == DotDot && kept != [] && kept[|kept| - 1] != DotDot then kept[..|kept| - 1]
    else kept + [name]
  }

  /** The names of a relative path after `filepath.Clean`, front to back. */
  function Clean(names: seq<Bytes>): (r: seq<Bytes>)
    ensures |r| <= |names|
    ensures forall k :: 0 <= k < |r| ==> r[k] != [] && r[k] != Dot
  {
    if names == [] then []
    else CleanStep(Clean(names[..|names| - 1]), names[|names| - 1])
  }

  /** The names below the base directory where `filepath.Join` puts the file for `id`. */
  function Stored(id: Bytes): seq<Bytes> {
    Clean(Split(RelPath(id), Separator))
  }

  /**
   * An id whose path cleaning leaves alone: no separator inside it and no
   * ".." directory piece.
   */
  predicate Plain(id: Bytes) {
    && Separator !in id
    && forall k :: 0 <= k < |Chunks(id)| - 1 ==> Chunks(id)[k] != DotDot
  }

  /** Each piece is two bytes long, except that the last may be one. */
  lemma ChunkLengths(id: Bytes)
    requires |id| >= 1
    ensures forall k :: 0 <= k < |Chunks(id)| - 1 ==> |Chunks(id)[k]| == 2
    ensures 1 <= |Chunks(id)[|Chunks(id)| - 1]| <= 2
    ensures |Chunks(id)[|Chunks(id)| - 1]| == 2 <==> |id| % 2 == 0
  {
    forall k | 0 <= k < |Chunks(id)| {
      ChunkAt(id, k);
    }
  }

  /** The pieces glue back into the id. */
  lemma {:induction false} ChunksConcat(id: Bytes)
    ensures Concat(Chunks(id)) == id
    decreases |id|
  {
    if |id| > 2 {
      ChunksConcat(id[2..]);
      assert Chunks(id)[1..] == Chunks(id[2..]);
      assert id == id[..2] + id[2..];
    } else if |id| > 0 {
      assert Concat(Chunks(id)[1..]) == [];
    }
  }

  /** Gluing after appending one piece appends that piece. */
  lemma {:induction false} ConcatSnoc(parts: seq<Bytes>, x: Bytes)
    ensures Concat(parts + [x]) == Concat(parts) + x
  {
    if parts != [] {
      assert (parts + [x])[1..] == parts[1..] + [x];
      ConcatSnoc(parts[1..], x);
    }
  }

  /** Ids shorter than two bytes sit directly in the base directory as `<id>.webp`. */
  lemma ShortIdLayout(id: Bytes)
    requires |id| < 2
    ensures Layout(id) == [id + Suffix]
  {
  }

  /**
   * For longer ids every piece but the last is a directory and the last piece
   * plus ".webp" is the file name; the components spell the id plus ".webp".
   */
  lemma LongIdLayout(id: Bytes)
    requires |id| >= 2
    ensures |Layout(id)| == |Chunks(id)|
    ensures Layout(id)[..|Layout(id)| - 1] == Chunks(id)[..|Chunks(id)| - 1]
    ensures Layout(id)[|Layout(id)| - 1] == Chunks(id)[|Chunks(id)| - 1] + Suffix
  {
  }

  /**
   * Lengths count bytes: a one-character id of two bytes is not short, and a
   * three-byte character is cut after its second byte.
   */
  lemma MultiByteIds()
    ensures Utf8("é") == [0xC3, 0xA9] && Layout(Utf8("é")) == [[0xC3, 0xA9] + Suffix]
    ensures Utf8("éa") == [0xC3, 0xA9, 0x61] && Layout(Utf8("éa")) == [[0xC3, 0xA9], [0x61] + Suffix]
    ensures Utf8("€") == [0xE2, 0x82, 0xAC] && Layout(Utf8("€")) == [[0xE2, 0x82], [0xAC] + Suffix]
  {
    var ea: Bytes := [0xC3, 0xA9, 0x61];
    ThreeByteLayout(ea);
    assert ea[..2] == [0xC3, 0xA9] && ea[2..] == [0x61];
    var euro: Bytes := [0xE2, 0x82, 0xAC];
    assert EncodeChar('€') == euro;
    assert Utf8("€") == EncodeChar('€') + Utf8([]);
    ThreeByteLayout(euro);
    assert euro[..2] == [0xE2, 0x82] && euro[2..] == [0xAC];
  }

  /** A three-byte id is one directory of two bytes and a one-byte file name. */
  lemma ThreeByteLayout(id: Bytes)
    requires |id| == 3
    ensures Layout(id) == [id[..2], id[2..] + Suffix]
  {
    assert Chunks(id[2..]) == [id[2..]];
  }

  /** Gluing a non-empty sequence of pieces is gluing all but the last, then the last. */
  lemma ConcatInitLast(c: seq<Bytes>)
    requires |c| > 0
    ensures Concat(c) == Concat(c[..|c| - 1]) + c[|c| - 1]
  {
    ConcatSnoc(c[..|c| - 1], c[|c| - 1]);
    assert c[..|c| - 1] + [c[|c| - 1]] == c;
  }

  /** Gluing the file-named pieces gives the glued pieces followed by ".webp". */
  lemma ConcatFileNamed(c: seq<Bytes>)
    requires |c| > 0
    ensures Concat(FileNamed(c)) == Concat(c) + Suffix
  {
    ConcatLastSuffix(c, Suffix);
  }

  lemma ConcatLastSuffix(c: seq<Bytes>, x: Bytes)
    requires |c| > 0
    ensures Concat(c[..|c| - 1] + [c[|c| - 1] + x]) == Concat(c) + x
  {
    var init, last := c[..|c| - 1], c[|c| - 1];
    ConcatSnoc(init, last + x);
    ConcatInitLast(c);
    AppendAssoc(Concat(init), last, x);
  }

  lemma AppendAssoc(a: Bytes, b: Bytes, x: Bytes)
    ensures a + (b + x) == a + b + x
  {
  }

  /** Gluing the components gives the id followed by ".webp", for every id. */
  lemma LayoutSpellsId(id: Bytes)
    ensures Concat(Layout(id)) == id + Suffix
  {
    if |id| >= 2 {
      ChunksConcat(id);
      ConcatFileNamed(Chunks(id));
    } else {
      assert Concat(Layout(id)) == Layout(id)[0] + Concat([]);
    }
  }

  /** Distinct ids get distinct names before cleaning. */
  lemma LayoutInjective(a: Bytes, b: Bytes)
    requires Layout(a) == Layout(b)
    ensures a == b
  {
    LayoutSpellsId(a);
    LayoutSpellsId(b);
    assert a == (a + Suffix)[..|a|];
    assert b == (b + Suffix)[..|b|];
  }

  /** Cleaning leaves a path alone when no name is empty, "." or "..". */
  lemma {:induction false} CleanKeeps(names: seq<Bytes>)
    requires forall k :: 0 <= k < |names| ==> names[k] != [] && names[k] != Dot && names[k] != DotDot
    ensures Clean(names) == names
  {
    if names != [] {
      CleanKeeps(names[..|names| - 1]);
      assert names[..|names| - 1] + [names[|names| - 1]] == names;
    }
  }

  /** No name of a layout holds the separator, for ids without one. */
  lemma LayoutNamesNoSeparator(id: Bytes)
    requires Separator !in id
    ensures forall k :: 0 <= k < |Layout(id)| ==> Separator !in Layout(id)[k]
  {
    if |id| >= 2 {
      forall k | 0 <= k < |Chunks(id)| ensures Separator !in Chunks(id)[k] {
        ChunkAt(id, k);
      }
    }
  }

  /** Plain ids are stored exactly at their layout: cleaning changes nothing. */
  lemma StoredPlain(id: Bytes)
    requires Plain(id)
    ensures Stored(id) == Layout(id)
  {
    var names := Layout(id);
    LayoutNamesNoSeparator(id);
    SplitJoin(names, Separator);
    assert Split(RelPath(id), Separator) == names;
    LayoutNamesOrdinary(id);
    CleanKeeps(names);
  }

  /** No name of a plain id's layout is empty, "." or "..". */
  lemma LayoutNamesOrdinary(id: Bytes)
    requires Plain(id)
    ensures forall k :: 0 <= k < |Layout(id)| ==> Layout(id)[k] != [] && Layout(id)[k] != Dot && Layout(id)[k] != DotDot
  {
    var names := Layout(id);
    var n := |names| - 1;
    if |id| >= 2 {
      assert forall k :: 0 <= k < n ==> names[k] == Chunks(id)[k];
    }
    assert |names[n]| >= |Suffix|;
  }

  /** Distinct plain ids are stored at distinct paths, so one never overwrites another. */
  lemma StoredInjective(a: Bytes, b: Bytes)
    requires Plain(a) && Plain(b)
    requires Stored(a) == Stored(b)
    ensures a == b
  {
    StoredPlain(a);
    StoredPlain(b);
    LayoutInjective(a, b);
  }

  /** The stored names of a three-piece id, read off its layout. */
  lemma StoredThreePieces(id: Bytes)
    requires |id| == 6 && Separator !in id
    ensures Stored(id) == Clean([id[..2], id[2..4], id[4..] + Suffix])
  {
    assert id[2..][2..] == id[4..] && id[2..][..2] == id[2..4];
    assert Chunks(id[4..]) == [id[4..]];
    assert Chunks(id[2..]) == [id[2..4], id[4..]];
    assert Chunks(id) == [id[..2], id[2..4], id[4..]];
    assert Layout(id) == [id[..2], id[2..4], id[4..] + Suffix];
    LayoutNamesNoSeparator(id);
    SplitJoin(Layout(id), Separator);
    assert Split(RelPath(id), Separator) == Layout(id);
  }

  /** A ".." directory piece climbs out of the directory before it: "xy..ab" is stored where "ab" is. */
  lemma DotDotAliases()
    ensures var ab: Bytes := [0x61, 0x62];
      Stored([0x78, 0x79] + DotDot + ab) == Stored(ab) == [ab + Suffix]
  {
    var xy: Bytes := [0x78, 0x79];
    var ab: Bytes := [0x61, 0x62];
    var id := xy + DotDot + ab;
    StoredThreePieces(id);
    assert id[..2] == xy && id[2..4] == DotDot && id[4..] == ab;
    assert Clean([xy]) == [xy];
    assert Clean([xy, DotDot]) == [];
    assert [xy, DotDot, ab + Suffix][..2] == [xy, DotDot];
    assert Clean([xy, DotDot, ab + Suffix]) == [ab + Suffix];
    assert Plain(ab) && Layout(ab) == [ab + Suffix];
    StoredPlain(ab);
  }

  /** A leading ".." piece leaves the base directory: "..ab" is stored beside it. */
  lemma DotDotEscapes()
    ensures var ab: Bytes := [0x61, 0x62];
      Stored(DotDot + ab) == [DotDot, ab + Suffix]
  {
    var ab: Bytes := [0x61, 0x62];
    var up := DotDot + ab;
    assert up[..2] == DotDot && up[2..] == ab && Chunks(ab) == [ab];
    assert Layout(up) == [DotDot, ab + Suffix];
    LayoutNamesNoSeparator(up);
    SplitJoin(Layout(up), Separator);
    assert Split(RelPath(up), Separator) == [DotDot, ab + Suffix];
    assert Clean([DotDot]) == [DotDot];
    assert [DotDot, ab + Suffix][..1] == [DotDot];
  }

  lemma {:induction false} RemoveAllConcat(a: Bytes, b: Bytes, c: byte)
    ensures RemoveAll(a + b, c) == RemoveAll(a, c) + RemoveAll(b, c)
  {
    if a == [] {
      assert a + b == b;
    } else {
      var head: Bytes := if a[0] == c then [] else [a[0]];
      assert (a + b)[0] == a[0] && (a + b)[1..] == a[1..] + b;
      assert RemoveAll(a + b, c) == head + RemoveAll(a[1..] + b, c);
      RemoveAllConcat(a[1..], b, c);
      assert RemoveAll(a, c) == head + RemoveAll(a[1..], c);
    }
  }

  lemma {:induction false} RemoveAllAbsent(s: Bytes, c: byte)
    requires c !in s
    ensures RemoveAll(s, c) == s
  {
    if s != [] {
      RemoveAllAbsent(s[1..], c);
    }
  }

  /** Deleting the separator from a joined path glues its pieces, if none holds the separator. */
  lemma {:induction false} RemoveSeparators(parts: seq<Bytes>, sep: byte)
    requires forall k :: 0 <= k < |parts| ==> sep !in parts[k]
    ensures RemoveAll(JoinWith(parts, sep), sep) == Concat(parts)
  {
    if |parts| == 1 {
      RemoveAllAbsent(parts[0], sep);
      assert Concat(parts[1..]) == [];
    } else if |parts| > 1 {
      RemoveSeparators(parts[1..], sep);
      RemoveAllConcat(parts[0] + [sep], JoinWith(parts[1..], sep), sep);
      RemoveAllConcat(parts[0], [sep], sep);
      RemoveAllAbsent(parts[0], sep);
      assert RemoveAll([sep], sep) == [];
    }
  }

  /** Appending bytes to the last piece appends them to the joined path. */
  lemma {:induction false} JoinWithSuffix(parts: seq<Bytes>, x: Bytes, suffix: Bytes, sep: byte)
    ensures JoinWith(parts + [x + suffix], sep) == JoinWith(parts + [x], sep) + suffix
  {
    if parts != [] {
      assert (parts + [x + suffix])[1..] == parts[1..] + [x + suffix];
      assert (parts + [x])[1..] == parts[1..] + [x];
      JoinWithSuffix(parts[1..], x, suffix, sep);
    }
  }

  /** A relative path of a longer id is the joined pieces followed by ".webp". */
  lemma LongRelPath(id: Bytes)
    requires |id| >= 2
    ensures JoinWith(Layout(id), Separator) == JoinWith(Chunks(id), Separator) + Suffix
  {
    JoinLastSuffix(Chunks(id), Separator);
  }

  /** Suffixing the last piece suffixes the joined path. */
  lemma JoinLastSuffix(c: seq<Bytes>, sep: byte)
    requires |c| > 0
    ensures JoinWith(FileNamed(c), sep) == JoinWith(c, sep) + Suffix
  {
    var init, last := c[..|c| - 1], c[|c| - 1];
    JoinWithSuffix(init, last, Suffix, sep);
    assert init + [last] == c;
  }

  lemma EndsWithSuffix(stem: Bytes)
    ensures HasSuffix(stem + Suffix, Suffix)
  {
    assert (stem + Suffix)[|stem|..] == Suffix;
  }

  /** The relative path of a stored image ends in ".webp" just after its id's last piece. */
  lemma RelPathShape(id: Bytes)
    ensures |id| < 2 ==> JoinWith(Layout(id), Separator) == id + Suffix
    ensures |id| >= 2 ==> JoinWith(Layout(id), Separator) == JoinWith(Chunks(id), Separator) + Suffix
    ensures HasSuffix(JoinWith(Layout(id), Separator), Suffix)
  {
    if |id| >= 2 {
      LongRelPath(id);
      EndsWithSuffix(JoinWith(Chunks(id), Separator));
    } else {
      assert Layout(id) == [id + Suffix];
      EndsWithSuffix(id);
    }
  }

  /** The reconstruction undoes `RelPath`, for ids without a separator. */
  lemma ListRoundTrip(id: Bytes)
    requires Separator !in id
    ensures IdFromRelPath(RelPath(id)) == id
  {
    RelPathShape(id);
    if |id| < 2 {
      assert TrimSuffix(RelPath(id), Suffix) == id;
      RemoveAllAbsent(id, Separator);
    } else {
      var c := Chunks(id);
      var joined := JoinWith(c, Separator);
      assert TrimSuffix(joined + Suffix, Suffix) == joined;
      forall k | 0 <= k < |c| ensures Separator !in c[k] {
        ChunkAt(id, k);
      }
      RemoveSeparators(c, Separator);
      ChunksConcat(id);
    }
  }

  /** One entry of a directory walk: its path relative to the base directory. */
  datatype WalkEntry = WalkEntry(rel: Bytes, isDir: bool)

  /** Whether `List` reports this walk entry. */
  predicate Listable(e: WalkEntry) {
    !e.isDir && HasSuffix(e.rel, Suffix)
  }

  /** The ids `List` collects from a walk, in walk order. */
  function Listed(walk: seq<WalkEntry>): (r: seq<Bytes>)
    ensures |r| <= |walk|
    ensures forall id :: id in r <==> exists e :: e in walk && Listable(e) && IdFromRelPath(e.rel) == id
  {
    if walk == [] then []
    else
      var last := walk[|walk| - 1];
      assert walk == walk[..|walk| - 1] + [last];
      Listed(walk[..|walk| - 1]) + (if Listable(last) then [IdFromRelPath(last.rel)] else [])
  }

  /** The walk entry of the file `Save` writes for `id`: its cleaned path, relative to the base. */
  function SavedEntry(id: Bytes): WalkEntry {
    WalkEntry(JoinWith(Stored(id), Separator), false)
  }

  /** The walk of a tree holding exactly the files saved for `ids`, in that order. */
  function SavedWalk(ids: seq<Bytes>): (r: seq<WalkEntry>)
    ensures |r| == |ids|
  {
    if ids == [] then [] else SavedWalk(ids[..|ids| - 1]) + [SavedEntry(ids[|ids| - 1])]
  }

  /** Listing a tree holding exactly the files saved for plain `ids` reports those ids, in walk order. */
  lemma {:induction false} ListSavedIds(ids: seq<Bytes>)
    requires forall k :: 0 <= k < |ids| ==> Plain(ids[k])
    ensures Listed(SavedWalk(ids)) == ids
  {
    if ids != [] {
      var n := |ids| - 1;
      assert ids == ids[..n] + [ids[n]];
      var walk := SavedWalk(ids);
      ListSavedIds(ids[..n]);
      assert walk[..n] == SavedWalk(ids[..n]) && walk[n] == SavedEntry(ids[n]);
      SavedEntryListed(ids[n]);
    }
  }

  /** The file saved for a plain id is listed, under that id. */
  lemma SavedEntryListed(id: Bytes)
    requires Plain(id)
    ensures Listable(SavedEntry(id)) && IdFromRelPath(SavedEntry(id).rel) == id
  {
    StoredPlain(id);
    RelPathShape(id);
    ListRoundTrip(id);
  }

  /** The file saved for "xy..ab" is listed as "ab". */
  lemma DotDotListed()
    ensures var ab: Bytes := [0x61, 0x62];
      Listed(SavedWalk([[0x78, 0x79] + DotDot + ab])) == [ab]
  {
    var ab: Bytes := [0x61, 0x62];
    DotDotAliases();
    var id := [0x78, 0x79] + DotDot + ab;
    assert SavedWalk([id]) == [SavedEntry(id)];
    assert SavedEntry(id) == SavedEntry(ab);
    assert Chunks(ab) == [ab];
    assert Plain(ab);
    ListSavedIds([ab]);
  }

  datatype FsError = NotExist(path: seq<Bytes>)

  /** A directory tree of image files, rooted at `baseDir`. */
  class FileSystemStorage {
    const baseDir: Bytes
    /** Path names, base directory first -> file contents. */
    var files: map<seq<Bytes>, Bytes>

    constructor (baseDir: Bytes)
      ensures this.baseDir == baseDir && files == map[]
    {
      this.baseDir := baseDir;
      files := map[];
    }

    /** Where the image with `id` is stored. */
    function Path(id: string): seq<Bytes> {
      [baseDir] + Stored(Utf8(id))
    }

    /** `getPath`: the sharded path, built piece by piece with a stride of two bytes, then joined. */
    method GetPath(id: string) returns (path: seq<Bytes>)
      ensures path == Path(id)
    {
      var names := ShardNames(Utf8(id));
      path := [baseDir] + Clean(Split(JoinWith(names, Separator), Separator));
    }

    /** `Save`: writes the image's bytes at its path, replacing any earlier file. */
    method Save(image: Image)
      modifies this`files
      ensures files == old(files)[Path(image.id) := image.data]
    {
      var path := GetPath(image.id);
      files := files[path := image.data];
    }

    /** `Get`: reads the file at the id's path and tags it as WebP. */
    method Get(id: string) returns (r: Result<Image, FsError>)
      ensures Path(id) in files ==> r == Ok(Image(id, files[Path(id)], Webp))
      ensures Path(id) !in files ==> r == Err(NotExist(Path(id)))
    {
      var path := GetPath(id);
      if path !in files {
        return Err(NotExist(path));
      }
      return Ok(Image(id, files[path], Webp));
    }

    /** `Delete`: removes the file at the id's path; a missing file is an error. */
    method Delete(id: string) returns (err: Option<FsError>)
      modifies this`files
      ensures Path(id) in old(files) ==> err == None && files == old(files) - {Path(id)}
      ensures Path(id) !in old(files) ==> err == Some(NotExist(Path(id))) && files == old(files)
    {
      var path := GetPath(id);
      if path !in files {
        return Some(NotExist(path));
      }
      files := files - {path};
      err := None;
    }
  }

  /** `getPath`'s names for the id's bytes: pieces cut with a stride of two, the last one suffixed. */
  method ShardNames(key: Bytes) returns (names: seq<Bytes>)
    ensures names == Layout(key)
  {
    if |key| < 2 {
      return [key + Suffix];
    }
    var parts: seq<Bytes> := [];
    var i := 0;
    while i < |key|
      invariant i % 2 == 0 && i <= |key| + 1
      invariant parts == Chunks(key)[..i / 2]
    {
      var end := i + 2;
      if end > |key| {
        end := |key|;
      }
      ChunkAt(key, i / 2);
      assert Chunks(key)[..i / 2 + 1] == Chunks(key)[..i / 2] + [key[i..end]];
      parts := parts + [key[i..end]];
      i := i + 2;
    }
    assert parts == Chunks(key);
    var filename := parts[|parts| - 1] + Suffix;
    parts := parts[..|parts| - 1];
    names := parts + [filename];
  }

  /** `List`: walks the tree and reports the id of every ".webp" file, in walk order. */
  method List(walk: seq<WalkEntry>) returns (ids: seq<Bytes>)
    ensures ids == Listed(walk)
  {
    ids := [];
    for i := 0 to |walk|
      invariant ids == Listed(walk[..i])
    {
      assert walk[..i + 1][..i] == walk[..i];
      if !walk[i].isDir && HasSuffix(walk[i].rel, Suffix) {
        var rel := walk[i].rel;
        ids := ids + [IdFromRelPath(rel)];
      }
    }
    assert walk[..|walk|] == walk;
  }

}
