/**
 * Values and pure rules behind the tiered image cache: image records, the
 * decode/encode collaborator, the two storage tiers seen through their common
 * interface, the extension-insensitive id match, and the cache transitions
 * (add with byte and count eviction, read-through insert, delete).
 */
module Images {
  import opened Common

  /** An image record: id, payload and a format tag. */
  datatype Image = Image(id: string, data: Bytes, format: string)

  /** The canonical format tag. */
  const Webp: string := "webp"

  /**
   * The image library, which is not part of this model: `isImage` says whether
   * the payload decodes as a supported image, `toWebp` re-encodes a decodable
   * payload losslessly as WebP and may fail.
   */
  datatype Codec = Codec(isImage: Bytes -> bool, toWebp: Bytes -> Option<Bytes>)

  /** Which tier an error came from. */
  datatype Role = Primary | Secondary

  datatype Op = GetOp | SaveOp | DeleteOp

  datatype Error =
    | NotFound(tier: Role, id: string)
    | IoFailure(tier: Role, op: Op)
    | EncodeFailed(id: string)
    | TooLarge(size: int, available: int)

  /** The tier an error came from, if it came from a tier. */
  function TierOf(e: Error): Option<Role> {
    match e
    case NotFound(t, _) => Some(t)
    case IoFailure(t, _) => Some(t)
    case _ => None
  }

  /*
   * Storage tiers
   */

  /** The two backends of the repository: local files and an object store. */
  datatype Backend = FileSystem | ObjectStore

  /** Which operations of a tier fail with an I/O error (disk or network). */
  datatype Faults = Faults(getFails: bool, saveFails: bool, deleteFails: bool)

  /**
   * A durable tier: id -> bytes. `readTag` is the format tag the backend puts
   * on every record it returns; both backends of the repository use "webp".
   */
  datatype Tier = Tier(role: Role, backend: Backend, blobs: map<string, Bytes>, readTag: string, faults: Faults)

  /** Storage.Get: the stored bytes under the requested id, tagged by the backend. */
  function TierGet(t: Tier, id: string): (r: Result<Image, Error>)
    ensures r.Ok? <==> !t.faults.getFails && id in t.blobs
    ensures r.Ok? ==> r.value == Image(id, t.blobs[id], t.readTag)
    ensures r.Err? ==> TierOf(r.error) == Some(t.role)
  {
    if t.faults.getFails then Err(IoFailure(t.role, GetOp))
    else if id in t.blobs then Ok(Image(id, t.blobs[id], t.readTag))
    else Err(NotFound(t.role, id))
  }

  /** Storage.Save: overwrites the bytes stored under the record's id; the format tag is not stored. */
  function TierSave(t: Tier, img: Image): (r: (Tier, Option<Error>))
    ensures r.1.None? <==> !t.faults.saveFails
    ensures r.1.None? ==> r.0 == t.(blobs := t.blobs[img.id := img.data])
    ensures r.1.Some? ==> r.0 == t && TierOf(r.1.value) == Some(t.role)
  {
    if t.faults.saveFails then (t, Some(IoFailure(t.role, SaveOp)))
    else (t.(blobs := t.blobs[img.id := img.data]), None)
  }

  /**
   * Storage.Delete. Removing a missing file is an error on the file system;
   * removing a missing object is not an error on the object store.
   */
  function TierDelete(t: Tier, id: string): (r: (Tier, Option<Error>))
    ensures r.1.None? <==> !t.faults.deleteFails && (id in t.blobs || t.backend.ObjectStore?)
    ensures r.1.None? ==> r.0 == t.(blobs := t.blobs - {id})
    ensures r.1.Some? ==> r.0 == t && TierOf(r.1.value) == Some(t.role)
  {
    if t.faults.deleteFails then (t, Some(IoFailure(t.role, DeleteOp)))
    else if id !in t.blobs && t.backend == FileSystem then (t, Some(NotFound(t.role, id)))
    else (t.(blobs := t.blobs - {id}), None)
  }

  /** After a successful save, a get of the same id on a tier whose reads do not fail returns the saved bytes. */
  lemma SaveThenGet(t: Tier, img: Image)
    requires !t.faults.saveFails && !t.faults.getFails
    ensures TierGet(TierSave(t, img).0, img.id) == Ok(Image(img.id, img.data, t.readTag))
  {
  }

  /*
   * Format normalisation
   */

  /**
   * Converts a decodable payload that is not tagged "webp" to WebP and tags it
   * "webp"; an undecodable payload, or one already tagged "webp", is returned
   * as it is. A failed encoding is an error.
   */
  function Normalize(codec: Codec, img: Image): (r: Result<Image, Error>)
    ensures r.Ok? ==> r.value.id == img.id
  {
    if codec.isImage(img.data) && img.format != Webp then
      match codec.toWebp(img.data)
      case Some(w) => Ok(Image(img.id, w, Webp))
      case None => Err(EncodeFailed(img.id))
    else
      Ok(img)
  }

  /** The three outcomes of normalisation, by the record's tag and decodability. */
  lemma NormalizeCases(codec: Codec, img: Image)
    ensures img.format == Webp ==> Normalize(codec, img) == Ok(img)
    ensures !codec.isImage(img.data) ==> Normalize(codec, img) == Ok(img)
    ensures codec.isImage(img.data) && img.format != Webp ==>
      match codec.toWebp(img.data)
      case Some(w) => Normalize(codec, img) == Ok(Image(img.id, w, Webp))
      case None => Normalize(codec, img) == Err(EncodeFailed(img.id))
  {
  }

  /** Normalising a normalised record changes nothing. */
  lemma NormalizeIdempotent(codec: Codec, img: Image)
    requires Normalize(codec, img).Ok?
    ensures Normalize(codec, Normalize(codec, img).value) == Normalize(codec, img)
  {
  }

  /** A record read from a tier that tags its reads "webp" (both backends do) is never re-encoded. */
  lemma TierReadsAreNotReencoded(codec: Codec, t: Tier, id: string)
    requires t.readTag == Webp && TierGet(t, id).Ok?
    ensures Normalize(codec, TierGet(t, id).value) == TierGet(t, id)
  {
  }

  /*
   * Extension-insensitive ids
   */

  /**
   * filepath.Ext: the suffix from the last '.' of the last '/'-separated
   * element, or "" when that element has no '.'.
   */
  function Ext(s: string): (e: string)
    ensures |e| <= |s| && e == s[|s| - |e|..]
    ensures e != [] ==> e[0] == '.' && forall k :: 1 <= k < |e| ==> e[k] != '.' && e[k] != '/'
    ensures e == [] <==> forall k :: 0 <= k < |s| && s[k] == '.' ==> '/' in s[k + 1..]
    decreases |s|
  {
    if s == [] || s[|s| - 1] == '/' then []
    else if s[|s| - 1] == '.' then "."
    else
      var e := Ext(s[..|s| - 1]);
      if e == [] then [] else e + [s[|s| - 1]]
  }

  /** strings.TrimSuffix(s, filepath.Ext(s)). */
  function StripExt(s: string): (r: string)
    ensures |r| <= |s| && r == s[..|r|]
  {
    s[..|s| - |Ext(s)|]
  }

  /** What StripExt removes: nothing, or a '.' and the rest of the last element, which holds no '.' or '/'. */
  lemma StripExtRemoves(s: string)
    ensures var r := StripExt(s);
      r == s || (s[|r|] == '.' && forall k :: |r| < k < |s| ==> s[k] != '.' && s[k] != '/')
    ensures StripExt(s) == s <==> forall k :: 0 <= k < |s| && s[k] == '.' ==> '/' in s[k + 1..]
  {
    var e := Ext(s);
    if e != [] {
      assert s[|s| - |e|] == e[0];
      forall k | |s| - |e| < k < |s| ensures s[k] != '.' && s[k] != '/' {
        assert s[k] == e[k - (|s| - |e|)];
      }
    }
  }

  /** The extension starts at a '.' followed by no other '.' and no '/'. */
  lemma {:induction false} ExtAt(s: string, i: nat)
    requires i < |s| && s[i] == '.'
    requires forall k :: i < k < |s| ==> s[k] != '.' && s[k] != '/'
    ensures Ext(s) == s[i..]
    decreases |s|
  {
    var last := s[|s| - 1];
    if i < |s| - 1 {
      var s' := s[..|s| - 1];
      assert last != '.' && last != '/';
      ExtAt(s', i);
      assert Ext(s) == Ext(s') + [last];
      assert s'[i..] + [last] == s[i..];
    } else {
      assert s[i..] == ".";
    }
  }

  /** An id whose last element has no '.' is its own base. */
  lemma NoExtension(s: string)
    requires forall k :: 0 <= k < |s| && s[k] == '.' ==> '/' in s[k + 1..]
    ensures StripExt(s) == s
  {
    assert s[..|s|] == s;
  }

  /** A '.' followed by no other '.' and no '/' is where the base ends. */
  lemma StripAt(s: string, i: nat)
    requires i < |s| && s[i] == '.'
    requires forall k :: i < k < |s| ==> s[k] != '.' && s[k] != '/'
    ensures StripExt(s) == s[..i]
  {
    ExtAt(s, i);
  }

  /** Two ids that differ only in their extension have the same base. */
  lemma ExtensionIgnored()
    ensures StripExt("cat.png") == "cat" == StripExt("cat.jpg")
  {
    StripAt("cat.png", 3);
    assert "cat.png"[..3] == "cat";
    StripAt("cat.jpg", 3);
    assert "cat.jpg"[..3] == "cat";
  }

  /** An id without an extension is its own base. */
  lemma PlainIdIsBase()
    ensures StripExt("cat") == "cat"
  {
    NoExtension("cat");
  }

  /** Only the last extension is stripped. */
  lemma OnlyLastExtension()
    ensures StripExt("a.tar.gz") == "a.tar" && StripExt("a.tar") == "a"
  {
    StripAt("a.tar.gz", 5);
    assert "a.tar.gz"[..5] == "a.tar";
    StripAt("a.tar", 1);
    assert "a.tar"[..1] == "a";
  }

  /** A '.' in a directory part is no extension. */
  lemma DirectoryDotIgnored()
    ensures StripExt("v1.2/cat") == "v1.2/cat"
  {
    NoDotInLastElement("v1.2/cat", 4);
  }

  /** A name whose last '/' comes after every '.' has no extension. */
  lemma NoDotInLastElement(s: string, slash: nat)
    requires slash < |s| && s[slash] == '/'
    requires forall k :: 0 <= k < |s| && s[k] == '.' ==> k < slash
    ensures StripExt(s) == s
  {
    forall k | 0 <= k < |s| && s[k] == '.' ensures '/' in s[k + 1..] {
      assert s[k + 1..][slash - k - 1] == '/';
    }
    NoExtension(s);
  }

  /*
   * Searching the cache
   */

  function Ids(images: seq<Image>): (r: seq<string>)
    ensures |r| == |images| && forall i :: 0 <= i < |images| ==> r[i] == images[i].id
  {
    seq(|images|, i requires 0 <= i < |images| => images[i].id)
  }

  function Bases(images: seq<Image>): (r: seq<string>)
    ensures |r| == |images| && forall i :: 0 <= i < |images| ==> r[i] == StripExt(images[i].id)
  {
    seq(|images|, i requires 0 <= i < |images| => StripExt(images[i].id))
  }

  /** No two cached records share an id. */
  ghost predicate UniqueIds(images: seq<Image>) {
    forall i, j :: 0 <= i < j < |images| ==> images[i].id != images[j].id
  }

  /** A cache miss on the extension-insensitive match is also a miss on the exact id. */
  lemma BaseMissIsIdMiss(images: seq<Image>, id: string)
    requires FirstIndex(Bases(images), StripExt(id)).None?
    ensures id !in Ids(images)
  {
    forall i | 0 <= i < |images| ensures Ids(images)[i] != id {
      assert Bases(images)[i] == StripExt(images[i].id);
    }
  }

  /*
   * Byte accounting
   */

  /** Sum of the payload sizes; it grows at the back, where eviction happens. */
  function SumBytes(images: seq<Image>): nat {
    if images == [] then 0 else SumBytes(images[..|images| - 1]) + |images[|images| - 1].data|
  }

  lemma {:induction false} SumBytesConcat(a: seq<Image>, b: seq<Image>)
    ensures SumBytes(a + b) == SumBytes(a) + SumBytes(b)
    decreases |b|
  {
    if b != [] {
      var b' := b[..|b| - 1];
      assert (a + b)[..|a + b| - 1] == a + b';
      SumBytesConcat(a, b');
    } else {
      assert a + b == a;
    }
  }

  lemma SumBytesSingle(x: Image)
    ensures SumBytes([x]) == |x.data|
  {
    assert [x][..0] == [];
  }

  /** Replacing one record changes the sum by exactly the difference in size. */
  lemma SumBytesUpdate(s: seq<Image>, i: nat, x: Image)
    requires i < |s|
    ensures SumBytes(s[i := x]) == SumBytes(s) - |s[i].data| + |x.data|
  {
    assert s == s[..i] + [s[i]] + s[i + 1..];
    assert s[i := x] == s[..i] + [x] + s[i + 1..];
    SumBytesConcat(s[..i] + [s[i]], s[i + 1..]);
    SumBytesConcat(s[..i], [s[i]]);
    SumBytesConcat(s[..i] + [x], s[i + 1..]);
    SumBytesConcat(s[..i], [x]);
    SumBytesSingle(s[i]);
    SumBytesSingle(x);
  }

  /** Removing one record lowers the sum by exactly its size. */
  lemma SumBytesRemove(s: seq<Image>, i: nat)
    requires i < |s|
    ensures SumBytes(s[..i] + s[i + 1..]) == SumBytes(s) - |s[i].data|
  {
    assert s == s[..i] + [s[i]] + s[i + 1..];
    SumBytesConcat(s[..i] + [s[i]], s[i + 1..]);
    SumBytesConcat(s[..i], [s[i]]);
    SumBytesConcat(s[..i], s[i + 1..]);
    SumBytesSingle(s[i]);
  }

  /** The cache state the service guards with its lock: newest first, and the byte counter. */
  datatype CacheState = CacheState(images: seq<Image>, totalBytes: int)

  /** The byte counter equals the sum of the cached payload sizes. */
  ghost predicate Accounted(c: CacheState) {
    c.totalBytes == SumBytes(c.images)
  }

  /*
   * AddImage
   */

  /**
   * The byte eviction loop: while the cache is not empty and the incoming
   * size does not fit, drop the last (oldest) record and its bytes.
   */
  function ByteEvict(images: seq<Image>, total: int, size: int, maxBytes: int): (r: (seq<Image>, int))
    ensures |r.0| <= |images| && r.0 == images[..|r.0|]
    ensures r.1 == total - (SumBytes(images) - SumBytes(r.0))
    ensures r.0 == [] || r.1 + size <= maxBytes
    ensures |r.0| < |images| ==>
      total - (SumBytes(images) - SumBytes(images[..|r.0| + 1])) + size > maxBytes
    decreases |images|
  {
    if |images| > 0 && total + size > maxBytes then
      var r := ByteEvict(images[..|images| - 1], total - |images[|images| - 1].data|, size, maxBytes);
      assert images[..|images|] == images;
      assert |r.0| < |images| - 1 ==> images[..|images| - 1][..|r.0| + 1] == images[..|r.0| + 1];
      r
    else
      (images, total)
  }

  /** The count eviction loop: drop the last record while there are more than `maxSize`. */
  function CountEvict(images: seq<Image>, total: int, maxSize: int): (r: (seq<Image>, int))
    requires maxSize >= 1
    ensures |r.0| == if |images| <= maxSize then |images| else maxSize
    ensures r.0 == images[..|r.0|]
    ensures r.1 == total - (SumBytes(images) - SumBytes(r.0))
    decreases |images|
  {
    if |images| > maxSize then
      CountEvict(images[..|images| - 1], total - |images[|images| - 1].data|, maxSize)
    else
      (images, total)
  }

  /**
   * ImageService.AddImage on the cache state: replace the record with the
   * same id in place, or evict for bytes, reject what still does not fit,
   * insert at the front and evict for count.
   */
  function AddToCache(c: CacheState, image: Image, maxSize: int, maxBytes: int): (r: (CacheState, Option<Error>))
    requires maxSize >= 1
    ensures r.1.Some? ==>
      && image.id !in Ids(c.images) && r.0.images == []
      && r.1.value.TooLarge? && r.1.value.size == |image.data|
    ensures r.1.None? ==> image in r.0.images
    ensures image.id in Ids(c.images) ==> r.1.None? && |r.0.images| == |c.images|
  {
    match FirstIndex(Ids(c.images), image.id)
    case Some(i) =>
      assert c.images[i := image][i] == image;
      (CacheState(c.images[i := image], c.totalBytes - |c.images[i].data| + |image.data|), None)
    case None =>
      AddNew(c, image, maxSize, maxBytes)
  }

  /** AddImage for an id not in the cache. */
  function AddNew(c: CacheState, image: Image, maxSize: int, maxBytes: int): (r: (CacheState, Option<Error>))
    requires maxSize >= 1
    ensures r.1.Some? ==>
      && r.0.images == [] && r.0.totalBytes + |image.data| > maxBytes
      && r.1.value == TooLarge(|image.data|, maxBytes - r.0.totalBytes)
    ensures r.1.None? ==> |r.0.images| >= 1 && r.0.images[0] == image
  {
    var size := |image.data|;
    var evicted := ByteEvict(c.images, c.totalBytes, size, maxBytes);
    if evicted.1 + size > maxBytes then
      (CacheState(evicted.0, evicted.1), Some(TooLarge(size, maxBytes - evicted.1)))
    else
      var counted := CountEvict([image] + evicted.0, evicted.1 + size, maxSize);
      (CacheState(counted.0, counted.1), None)
  }

  /**
   * Adding an id already cached replaces that record at its position, keeps
   * the length, moves the counter by new size minus old size, and neither
   * evicts nor checks a bound.
   */
  lemma AddExisting(c: CacheState, image: Image, maxSize: int, maxBytes: int, i: nat)
    requires maxSize >= 1
    requires i < |c.images| && c.images[i].id == image.id && image.id !in Ids(c.images)[..i]
    ensures var (c', err) := AddToCache(c, image, maxSize, maxBytes);
      && err.None?
      && |c'.images| == |c.images|
      && c'.images[i] == image
      && (forall j :: 0 <= j < |c.images| && j != i ==> c'.images[j] == c.images[j])
      && c'.totalBytes == c.totalBytes + |image.data| - |c.images[i].data|
  {
    FirstIndexAt(Ids(c.images), image.id, i);
  }

  /** Pushing a record that fits on the front and evicting for count keeps it at index 0, within both bounds. */
  lemma InsertFront(image: Image, kept: seq<Image>, total: int, maxSize: int, maxBytes: int)
    requires maxSize >= 1
    requires total + |image.data| <= maxBytes
    ensures var (s, t) := CountEvict([image] + kept, total + |image.data|, maxSize);
      && |s| >= 1 && s[0] == image
      && |s| <= maxSize
      && t <= maxBytes
      && s[1..] == kept[..|s| - 1]
  {
    var all := [image] + kept;
    var r := CountEvict(all, total + |image.data|, maxSize);
    var s := r.0;
    assert s == all[..|s|];
    assert all[1..] == kept;
    assert s[1..] == kept[..|s| - 1];
    assert SumBytes(s) <= SumBytes(all) by {
      SumBytesConcat(s, all[|s|..]);
      assert s + all[|s|..] == all;
    }
  }

  /**
   * A successful add of a new id leaves it newest, at index 0, within both
   * bounds; the rest of the cache is the oldest-evicted prefix of the old one.
   */
  lemma AddNewSucceeds(c: CacheState, image: Image, maxSize: int, maxBytes: int)
    requires maxSize >= 1
    requires image.id !in Ids(c.images)
    requires AddToCache(c, image, maxSize, maxBytes).1.None?
    ensures var c' := AddToCache(c, image, maxSize, maxBytes).0;
      && |c'.images| >= 1 && c'.images[0] == image
      && |c'.images| <= maxSize
      && c'.totalBytes <= maxBytes
      && c'.images[1..] == c.images[..|c'.images| - 1]
  {
    assert FirstIndex(Ids(c.images), image.id).None?;
    assert AddToCache(c, image, maxSize, maxBytes) == AddNew(c, image, maxSize, maxBytes);
    AddNewFits(c, image, maxSize, maxBytes);
  }

  /** The insertion path of AddImage, when it succeeds, puts the image first within both bounds. */
  lemma AddNewFits(c: CacheState, image: Image, maxSize: int, maxBytes: int)
    requires maxSize >= 1
    requires AddNew(c, image, maxSize, maxBytes).1.None?
    ensures var c' := AddNew(c, image, maxSize, maxBytes).0;
      && |c'.images| >= 1 && c'.images[0] == image
      && |c'.images| <= maxSize
      && c'.totalBytes <= maxBytes
      && c'.images[1..] == c.images[..|c'.images| - 1]
  {
    var ev := ByteEvict(c.images, c.totalBytes, |image.data|, maxBytes);
    InsertFront(image, ev.0, ev.1, maxSize, maxBytes);
    var s := CountEvict([image] + ev.0, ev.1 + |image.data|, maxSize).0;
    assert |s| - 1 <= |ev.0|;
    assert ev.0[..|s| - 1] == c.images[..|s| - 1];
  }

  /**
   * A failed add returns TooLarge and leaves the cache EMPTY: the byte
   * eviction loop runs before the size check. With the counter accounted, an
   * image larger than the whole budget always fails.
   */
  lemma AddRejects(c: CacheState, image: Image, maxSize: int, maxBytes: int)
    requires maxSize >= 1
    requires image.id !in Ids(c.images)
    ensures var (c', err) := AddToCache(c, image, maxSize, maxBytes);
      && (err.Some? ==> c'.images == [] && err.value.TooLarge? && err.value.size == |image.data|)
      && (Accounted(c) && |image.data| > maxBytes ==> err.Some? && Accounted(c'))
  {
    var size := |image.data|;
    var (kept, t) := ByteEvict(c.images, c.totalBytes, size, maxBytes);
    if Accounted(c) && size > maxBytes {
      assert t == SumBytes(kept);
    }
  }

  /** Adding keeps the counter equal to the sum of the cached sizes. */
  lemma AddKeepsAccounting(c: CacheState, image: Image, maxSize: int, maxBytes: int)
    requires maxSize >= 1 && Accounted(c)
    ensures Accounted(AddToCache(c, image, maxSize, maxBytes).0)
  {
    match FirstIndex(Ids(c.images), image.id)
    case Some(i) =>
      SumBytesUpdate(c.images, i, image);
    case None =>
      var size := |image.data|;
      var (kept, t) := ByteEvict(c.images, c.totalBytes, size, maxBytes);
      SumBytesConcat([image], kept);
      SumBytesSingle(image);
  }

  /** Adding keeps the count bound and the uniqueness of ids. */
  lemma AddKeepsShape(c: CacheState, image: Image, maxSize: int, maxBytes: int)
    requires maxSize >= 1 && |c.images| <= maxSize && UniqueIds(c.images)
    ensures var c' := AddToCache(c, image, maxSize, maxBytes).0;
      |c'.images| <= maxSize && UniqueIds(c'.images)
  {
    match FirstIndex(Ids(c.images), image.id)
    case Some(i) =>
    case None =>
      var size := |image.data|;
      var (kept, t) := ByteEvict(c.images, c.totalBytes, size, maxBytes);
      var s := [image] + kept;
      forall j | 0 <= j < |kept| ensures kept[j].id != image.id {
        assert kept[j] == c.images[j];
        assert Ids(c.images)[j] == c.images[j].id;
      }
      assert UniqueIds(s) by {
        forall i, j | 0 <= i < j < |s| ensures s[i].id != s[j].id {
          if i > 0 {
            assert s[i] == c.images[i - 1] && s[j] == c.images[j - 1];
          }
        }
      }
  }

  lemma AddKeepsInvariants(c: CacheState, image: Image, maxSize: int, maxBytes: int)
    requires maxSize >= 1 && |c.images| <= maxSize && UniqueIds(c.images)
    ensures var c' := AddToCache(c, image, maxSize, maxBytes).0;
      |c'.images| <= maxSize && UniqueIds(c'.images) && (Accounted(c) ==> Accounted(c'))
  {
    AddKeepsShape(c, image, maxSize, maxBytes);
    if Accounted(c) {
      AddKeepsAccounting(c, image, maxSize, maxBytes);
    }
  }

  /*
   * GetImage's read-through insert
   */

  /**
   * The read-through insert: when the cache holds `maxSize` records or more,
   * drop index 0 (the NEWEST record), then append at the end (the oldest
   * position). The byte counter is not part of it.
   */
  function ReadThrough(images: seq<Image>, maxSize: int, img: Image): (r: seq<Image>)
    requires maxSize >= 1
    ensures |r| >= 1 && r[|r| - 1] == img
    ensures |r| == if |images| >= maxSize then |images| else |images| + 1
    ensures forall x :: x in r ==> x == img || x in images
  {
    (if |images| >= maxSize then images[1..] else images) + [img]
  }

  /** The read-through insert keeps the count bound, and what it drops is index 0. */
  lemma ReadThroughBound(images: seq<Image>, maxSize: int, img: Image)
    requires maxSize >= 1 && |images| <= maxSize
    ensures var r := ReadThrough(images, maxSize, img);
      && |r| <= maxSize
      && r[|r| - 1] == img
      && (|images| == maxSize ==> |r| == maxSize && r[..|r| - 1] == images[1..])
      && (|images| < maxSize ==> r[..|r| - 1] == images)
  {
  }

  /** A read-through insert of a new id keeps ids unique. */
  lemma ReadThroughUnique(images: seq<Image>, maxSize: int, img: Image)
    requires maxSize >= 1 && UniqueIds(images) && img.id !in Ids(images)
    ensures UniqueIds(ReadThrough(images, maxSize, img))
  {
    var kept := if |images| >= maxSize then images[1..] else images;
    forall j | 0 <= j < |kept| ensures kept[j].id != img.id {
      var k := if |images| >= maxSize then j + 1 else j;
      assert kept[j] == images[k];
      assert Ids(images)[k] == images[k].id;
    }
  }

  /**
   * With a full cache, the read-through insert of a record of a different size
   * than the dropped one leaves the counter wrong: it is never updated.
   */
  lemma ReadThroughBreaksAccounting(a: Image, b: Image)
    requires |a.data| != |b.data|
    ensures Accounted(CacheState([a], |a.data|))
    ensures !Accounted(CacheState(ReadThrough([a], 1, b), |a.data|))
  {
    SumBytesSingle(a);
    SumBytesSingle(b);
  }

  /*
   * GetImage
   */

  /** What GetImage leaves behind: the cache records, the primary tier (write-back), and the result. */
  datatype GetOutcome = GetOutcome(images: seq<Image>, primary: Tier, result: Result<Image, Error>)

  /**
   * ImageService.GetImage: the cache probe by extension-insensitive id, then
   * the primary tier, then the secondary tier if there is one.
   */
  function GetFromTiers(images: seq<Image>, primary: Tier, secondary: Option<Tier>, codec: Codec, maxSize: int, id: string): (r: GetOutcome)
    requires maxSize >= 1
    ensures r.result.Ok? ==> StripExt(r.result.value.id) == StripExt(id)
    ensures r.result.Err? ==> r.images == images
    ensures StripExt(id) in Bases(images) ==> r.primary == primary && |r.images| == |images|
  {
    match FirstIndex(Bases(images), StripExt(id))
    case Some(i) =>
      (match Normalize(codec, images[i])
       case Ok(n) => GetOutcome(images[i := n], primary, Ok(n))
       case Err(e) => GetOutcome(images, primary, Err(e)))
    case None =>
      GetOnMiss(images, primary, secondary, codec, maxSize, id)
  }

  /** GetImage after a cache miss: the primary tier, then the secondary tier if there is one. */
  function GetOnMiss(images: seq<Image>, primary: Tier, secondary: Option<Tier>, codec: Codec, maxSize: int, id: string): (r: GetOutcome)
    requires maxSize >= 1
    ensures r.result.Ok? ==> r.result.value.id == id && r.images == ReadThrough(images, maxSize, r.result.value)
    ensures r.result.Err? ==> r.images == images && r.primary == primary
    ensures r.primary != primary ==> secondary.Some? && TierGet(primary, id).Err? && r.result.Ok?
  {
    match TierGet(primary, id)
    case Ok(p) =>
      (match Normalize(codec, p)
       case Ok(n) => GetOutcome(ReadThrough(images, maxSize, n), primary, Ok(n))
       case Err(e) => GetOutcome(images, primary, Err(e)))
    case Err(pe) =>
      if secondary.None? then GetOutcome(images, primary, Err(pe))
      else
        match TierGet(secondary.value, id)
        case Err(se) => GetOutcome(images, primary, Err(se))
        case Ok(s) =>
          match Normalize(codec, s)
          case Err(e) => GetOutcome(images, primary, Err(e))
          case Ok(n) => GetOutcome(ReadThrough(images, maxSize, n), TierSave(primary, n).0, Ok(n))
  }

  /**
   * A cache hit returns the FIRST record whose id matches the query with both
   * extensions stripped, normalised; only that record may change, in place,
   * and the tiers are not consulted.
   */
  lemma GetHit(images: seq<Image>, primary: Tier, secondary: Option<Tier>, codec: Codec, maxSize: int, id: string, i: nat)
    requires maxSize >= 1
    requires i < |images| && StripExt(images[i].id) == StripExt(id)
    requires forall j :: 0 <= j < i ==> StripExt(images[j].id) != StripExt(id)
    ensures var o := GetFromTiers(images, primary, secondary, codec, maxSize, id);
      && o.primary == primary
      && o.result == Normalize(codec, images[i])
      && o.images == if o.result.Ok? then images[i := o.result.value] else images
  {
    assert Bases(images)[i] == StripExt(id);
    forall j | 0 <= j < i ensures Bases(images)[..i][j] != StripExt(id) {
      assert Bases(images)[j] == StripExt(images[j].id);
    }
    FirstIndexAt(Bases(images), StripExt(id), i);
  }

  /**
   * A cache hit that re-encodes the record to a payload of another size leaves
   * the counter wrong: the record changes in place and the counter is not
   * part of GetImage.
   */
  lemma HitNormalizeBreaksAccounting(a: Image, primary: Tier, secondary: Option<Tier>, codec: Codec, id: string)
    requires StripExt(a.id) == StripExt(id)
    requires codec.isImage(a.data) && a.format != Webp
    requires codec.toWebp(a.data).Some? && |codec.toWebp(a.data).value| != |a.data|
    ensures Accounted(CacheState([a], |a.data|))
    ensures var o := GetFromTiers([a], primary, secondary, codec, 1, id);
      o.result.Ok? && !Accounted(CacheState(o.images, |a.data|))
  {
    GetHit([a], primary, secondary, codec, 1, id, 0);
    var n := Normalize(codec, a).value;
    SumBytesSingle(a);
    SumBytesSingle(n);
  }

  /**
   * On a cache miss with a primary hit, the result is the primary record,
   * normalised, and on success it is appended by the read-through insert; the
   * secondary tier is not consulted and the primary tier is not written.
   */
  lemma GetPrimaryHit(images: seq<Image>, primary: Tier, secondary: Option<Tier>, codec: Codec, maxSize: int, id: string)
    requires maxSize >= 1
    requires FirstIndex(Bases(images), StripExt(id)).None?
    requires !primary.faults.getFails && id in primary.blobs
    ensures var o := GetFromTiers(images, primary, secondary, codec, maxSize, id);
      && o.primary == primary
      && o.result == Normalize(codec, Image(id, primary.blobs[id], primary.readTag))
      && o.images == if o.result.Ok? then ReadThrough(images, maxSize, o.result.value) else images
  {
  }

  /**
   * A secondary hit whose normalisation succeeds returns that record whether
   * or not the write-back to the primary tier fails; the write-back stores the
   * normalised bytes when it succeeds and changes nothing when it fails.
   */
  lemma GetSecondaryHit(images: seq<Image>, primary: Tier, secondary: Option<Tier>, codec: Codec, maxSize: int, id: string)
    requires maxSize >= 1
    requires FirstIndex(Bases(images), StripExt(id)).None?
    requires TierGet(primary, id).Err? && secondary.Some? && TierGet(secondary.value, id).Ok?
    requires Normalize(codec, TierGet(secondary.value, id).value).Ok?
    ensures var n := Normalize(codec, TierGet(secondary.value, id).value).value;
      var o := GetFromTiers(images, primary, secondary, codec, maxSize, id);
      && o.result == Ok(n)
      && o.images == ReadThrough(images, maxSize, n)
      && (primary.faults.saveFails ==> o.primary == primary)
      && (!primary.faults.saveFails ==> o.primary.blobs == primary.blobs[id := n.data])
  {
  }

  /**
   * When the cache and every consulted tier miss, the error is the last
   * consulted tier's: the secondary's when there is one, else the primary's;
   * nothing changes.
   */
  lemma GetMissReportsLastTier(images: seq<Image>, primary: Tier, secondary: Option<Tier>, codec: Codec, maxSize: int, id: string)
    requires maxSize >= 1
    requires FirstIndex(Bases(images), StripExt(id)).None?
    requires primary.role == Primary && (secondary.Some? ==> secondary.value.role == Secondary)
    requires TierGet(primary, id).Err?
    requires secondary.Some? ==> TierGet(secondary.value, id).Err?
    ensures var o := GetFromTiers(images, primary, secondary, codec, maxSize, id);
      && o.images == images && o.primary == primary
      && o.result.Err?
      && TierOf(o.result.error) == Some(if secondary.Some? then Secondary else Primary)
      && o.result == (if secondary.Some? then TierGet(secondary.value, id) else TierGet(primary, id))
  {
  }

  /** After a miss, the cache is unchanged or has had the returned record inserted by the read-through. */
  lemma GetOnMissShape(images: seq<Image>, primary: Tier, secondary: Option<Tier>, codec: Codec, maxSize: int, id: string)
    requires maxSize >= 1
    ensures var o := GetOnMiss(images, primary, secondary, codec, maxSize, id);
      || o.images == images
      || (o.result.Ok? && o.result.value.id == id && o.images == ReadThrough(images, maxSize, o.result.value))
  {
  }

  /** GetImage keeps the count bound and the uniqueness of ids. */
  lemma GetKeepsShape(images: seq<Image>, primary: Tier, secondary: Option<Tier>, codec: Codec, maxSize: int, id: string)
    requires maxSize >= 1 && |images| <= maxSize && UniqueIds(images)
    ensures var o := GetFromTiers(images, primary, secondary, codec, maxSize, id);
      |o.images| <= maxSize && UniqueIds(o.images)
  {
    match FirstIndex(Bases(images), StripExt(id))
    case Some(i) =>
      HitKeepsIds(images, primary, secondary, codec, maxSize, id, i);
    case None =>
      BaseMissIsIdMiss(images, id);
      MissKeepsShape(images, primary, secondary, codec, maxSize, id);
  }

  /** A hit rewrites at most the record it found, and keeps its id. */
  lemma HitKeepsIds(images: seq<Image>, primary: Tier, secondary: Option<Tier>, codec: Codec, maxSize: int, id: string, i: nat)
    requires maxSize >= 1 && FirstIndex(Bases(images), StripExt(id)) == Some(i)
    ensures var o := GetFromTiers(images, primary, secondary, codec, maxSize, id);
      |o.images| == |images| && forall j :: 0 <= j < |images| ==> o.images[j].id == images[j].id
  {
    var o := GetFromTiers(images, primary, secondary, codec, maxSize, id);
    if o.result.Ok? {
      assert o.images == images[i := o.result.value];
    }
  }

  /** A miss's read-through insert keeps the count bound and the uniqueness of ids. */
  lemma MissKeepsShape(images: seq<Image>, primary: Tier, secondary: Option<Tier>, codec: Codec, maxSize: int, id: string)
    requires maxSize >= 1 && |images| <= maxSize && UniqueIds(images) && id !in Ids(images)
    ensures var o := GetOnMiss(images, primary, secondary, codec, maxSize, id);
      |o.images| <= maxSize && UniqueIds(o.images)
  {
    var o := GetOnMiss(images, primary, secondary, codec, maxSize, id);
    if o.result.Ok? {
      ReadThroughBound(images, maxSize, o.result.value);
      ReadThroughUnique(images, maxSize, o.result.value);
    }
  }

  /*
   * DeleteImage
   */

  /** What DeleteImage leaves behind. */
  datatype DeleteOutcome = DeleteOutcome(cache: CacheState, primary: Tier, secondary: Option<Tier>, result: Option<Error>)

  /** The cache part of DeleteImage: drop the first record with exactly this id and its bytes. */
  function RemoveFromCache(c: CacheState, id: string): (r: CacheState)
    ensures id !in Ids(c.images) ==> r == c
    ensures |r.images| == |c.images| - (if id in Ids(c.images) then 1 else 0)
    ensures forall x :: x in r.images ==> x in c.images
  {
    match FirstIndex(Ids(c.images), id)
    case Some(i) => CacheState(c.images[..i] + c.images[i + 1..], c.totalBytes - |c.images[i].data|)
    case None => c
  }

  /**
   * ImageService.DeleteImage: drop the first record with exactly this id and
   * its bytes, delete from the primary tier (its error is returned), then from
   * the secondary tier if there is one (its error is dropped).
   */
  function DeleteEverywhere(c: CacheState, primary: Tier, secondary: Option<Tier>, id: string): (r: DeleteOutcome)
    ensures r.result.None? ==> id !in r.primary.blobs
    ensures r.result.Some? ==> r.primary == primary && r.secondary == secondary && TierOf(r.result.value) == Some(primary.role)
    ensures r.secondary != secondary ==> r.result.None? && r.secondary.Some? && id !in r.secondary.value.blobs
  {
    var c' := RemoveFromCache(c, id);
    var (p, pe) := TierDelete(primary, id);
    if pe.Some? then DeleteOutcome(c', p, secondary, pe)
    else if secondary.None? then DeleteOutcome(c', p, None, None)
    else DeleteOutcome(c', p, Some(TierDelete(secondary.value, id).0), None)
  }

  /**
   * Delete removes at most one record (the first with exactly this id) whatever
   * the tiers do; its result is the primary tier's delete error and never the
   * secondary's; the secondary is only touched after the primary succeeds.
   */
  lemma DeleteBehaviour(c: CacheState, primary: Tier, secondary: Option<Tier>, id: string)
    ensures var o := DeleteEverywhere(c, primary, secondary, id);
      && (id !in Ids(c.images) ==> o.cache == c)
      && (id in Ids(c.images) ==>
            var i := FirstIndex(Ids(c.images), id).value;
            && |o.cache.images| == |c.images| - 1
            && o.cache.images == c.images[..i] + c.images[i + 1..]
            && o.cache.totalBytes == c.totalBytes - |c.images[i].data|)
      && o.result == TierDelete(primary, id).1
      && o.primary == TierDelete(primary, id).0
      && (o.result.Some? ==> o.secondary == secondary)
      && (o.result.None? && secondary.Some? ==> o.secondary == Some(TierDelete(secondary.value, id).0))
  {
  }

  lemma UniqueIdsRemove(s: seq<Image>, i: nat)
    requires i < |s| && UniqueIds(s)
    ensures UniqueIds(s[..i] + s[i + 1..])
  {
    var s' := s[..i] + s[i + 1..];
    forall a, b | 0 <= a < b < |s'| ensures s'[a].id != s'[b].id {
      var a' := if a < i then a else a + 1;
      var b' := if b < i then b else b + 1;
      assert s'[a] == s[a'] && s'[b] == s[b'];
    }
  }

  /** Delete keeps the accounting, the count bound and the uniqueness of ids. */
  lemma DeleteKeepsInvariants(c: CacheState, primary: Tier, secondary: Option<Tier>, id: string, maxSize: int)
    requires |c.images| <= maxSize && UniqueIds(c.images)
    ensures var c' := DeleteEverywhere(c, primary, secondary, id).cache;
      && |c'.images| <= maxSize && UniqueIds(c'.images)
      && (Accounted(c) ==> Accounted(c'))
  {
    match FirstIndex(Ids(c.images), id)
    case Some(i) =>
      SumBytesRemove(c.images, i);
      UniqueIdsRemove(c.images, i);
      assert RemoveFromCache(c, id) == CacheState(c.images[..i] + c.images[i + 1..], c.totalBytes - |c.images[i].data|);
    case None =>
  }
}
