/**
 * The tier orchestrator: ImageService keeps the in-memory cache (a slice of
 * records, newest first, and a byte counter) in front of a primary tier and
 * an optional secondary tier. Each method is proved against the pure
 * transition of the same name in module Images.
 */
module ImageServices {
  import opened Common
  import opened Images

  const DefaultMaxCacheSize: int := 100
  const DefaultMaxCacheMB: int := 100

  const TwoTo63: int := 0x8000_0000_0000_0000
  const TwoTo64: int := 0x1_0000_0000_0000_0000

  /** Two's-complement wrap-around of Go's int64 arithmetic. */
  function Wrap64(x: int): (r: int)
    ensures -TwoTo63 <= r < TwoTo63
    ensures -TwoTo63 <= x < TwoTo63 ==> r == x
  {
    (x + TwoTo63) % TwoTo64 - TwoTo63
  }

  /** A parsed setting is used only when it is positive; otherwise the default. */
  function CacheLimit(setting: Option<int>, default: int): (r: int)
    requires default > 0
    ensures r > 0
    ensures setting.Some? && setting.value > 0 ==> r == setting.value
    ensures setting.None? || setting.value <= 0 ==> r == default
  {
    if setting.Some? && setting.value > 0 then setting.value else default
  }

  /** int64(mb) * 1024 * 1024, wrapping as Go does. */
  function MaxBytesFor(mb: int): int {
    Wrap64(mb * 1024 * 1024)
  }

  /** Below 2^43 megabytes the byte budget is exact and positive. */
  lemma MaxBytesExact(mb: int)
    requires 0 < mb < 0x800_0000_0000
    ensures MaxBytesFor(mb) == mb * 1048576 && MaxBytesFor(mb) > 0
  {
    assert mb * 1024 * 1024 < TwoTo63;
  }

  /** At 2^43 megabytes the budget wraps to a negative number, so every add of a new id fails. */
  lemma MaxBytesWraps()
    ensures MaxBytesFor(0x800_0000_0000) == -TwoTo63
  {
  }

  class ImageService {
    var images: seq<Image>
    var totalBytes: int
    var primary: Tier
    var secondary: Option<Tier>
    const maxSize: int
    const maxBytes: int
    const codec: Codec

    /** What every operation keeps: the count bound, unique ids, and the tier roles. */
    ghost predicate Valid()
      reads this
    {
      && maxSize >= 1
      && |images| <= maxSize
      && UniqueIds(images)
      && primary.role == Primary
      && (secondary.Some? ==> secondary.value.role == Secondary)
    }

    function State(): CacheState
      reads this
    {
      CacheState(images, totalBytes)
    }

    /**
     * NewImageService, with the parsed MAX_CACHE_FILES and MAX_CACHE_SIZE_MB
     * settings passed in (None when unset or not a number).
     */
    constructor (primary: Tier, secondary: Option<Tier>, codec: Codec, maxFilesSetting: Option<int>, maxMBSetting: Option<int>)
      ensures Valid() && images == [] && totalBytes == 0 && Accounted(State())
      ensures this.primary == primary.(role := Primary)
      ensures secondary.Some? ==> this.secondary == Some(secondary.value.(role := Secondary))
      ensures secondary.None? ==> this.secondary.None?
      ensures maxSize == CacheLimit(maxFilesSetting, DefaultMaxCacheSize)
      ensures maxBytes == MaxBytesFor(CacheLimit(maxMBSetting, DefaultMaxCacheMB))
    {
      images := [];
      totalBytes := 0;
      this.primary := primary.(role := Primary);
      this.secondary := if secondary.Some? then Some(secondary.value.(role := Secondary)) else None;
      maxSize := CacheLimit(maxFilesSetting, DefaultMaxCacheSize);
      maxBytes := MaxBytesFor(CacheLimit(maxMBSetting, DefaultMaxCacheMB));
      this.codec := codec;
    }

    /**
     * AddImage: replace the record with the same id in place, or evict the
     * oldest records until the new one fits, reject it if it still does not,
     * insert it at the front and evict the oldest beyond `maxSize`.
     */
    method AddImage(image: Image) returns (err: Option<Error>)
      requires Valid()
      modifies this
      ensures Valid()
      ensures (State(), err) == AddToCache(old(State()), image, maxSize, maxBytes)
      ensures primary == old(primary) && secondary == old(secondary)
      ensures old(Accounted(State())) ==> Accounted(State())
    {
      var i := 0;
      while i < |images|
        invariant 0 <= i <= |images|
        invariant images == old(images) && totalBytes == old(totalBytes)
        invariant primary == old(primary) && secondary == old(secondary)
        invariant image.id !in Ids(images)[..i]
      {
        if images[i].id == image.id {
          FirstIndexAt(Ids(images), image.id, i);
          totalBytes := totalBytes - |images[i].data|;
          images := images[i := image];
          totalBytes := totalBytes + |image.data|;
          assert (State(), None) == AddToCache(old(State()), image, maxSize, maxBytes);
          AddKeepsInvariants(old(State()), image, maxSize, maxBytes);
          return None;
        }
        i := i + 1;
      }
      assert Ids(images)[..i] == Ids(images);
      assert FirstIndex(Ids(images), image.id).None?;
      err := AddNewImage(image);
      AddKeepsInvariants(old(State()), image, maxSize, maxBytes);
    }

    /** The part of AddImage after the search: the id is not cached. */
    method AddNewImage(image: Image) returns (err: Option<Error>)
      requires maxSize >= 1
      modifies this`images, this`totalBytes
      ensures (State(), err) == AddNew(old(State()), image, maxSize, maxBytes)
    {
      var imageSize := |image.data|;
      ghost var evicted := ByteEvict(images, totalBytes, imageSize, maxBytes);
      ghost var expected := AddNew(State(), image, maxSize, maxBytes);
      if totalBytes + imageSize > maxBytes {
        EvictForBytes(imageSize);
        if totalBytes + imageSize > maxBytes {
          assert expected == (CacheState(evicted.0, evicted.1), Some(TooLarge(imageSize, maxBytes - evicted.1)));
          return Some(TooLarge(imageSize, maxBytes - totalBytes));
        }
      }
      assert State() == CacheState(evicted.0, evicted.1) && evicted.1 + imageSize <= maxBytes;
      ghost var counted := CountEvict([image] + evicted.0, evicted.1 + imageSize, maxSize);
      assert expected == (CacheState(counted.0, counted.1), None);

      images := [image] + images;
      totalBytes := totalBytes + imageSize;
      if |images| > maxSize {
        EvictForCount();
      } else {
        assert CountEvict(images, totalBytes, maxSize) == (images, totalBytes);
      }
      return None;
    }

    /** AddImage's first eviction loop: drop the oldest record while `size` more bytes do not fit. */
    method EvictForBytes(size: int)
      requires maxSize >= 1
      modifies this`images, this`totalBytes
      ensures State() == CacheState(ByteEvict(old(images), old(totalBytes), size, maxBytes).0,
                                    ByteEvict(old(images), old(totalBytes), size, maxBytes).1)
    {
      while |images| > 0 && totalBytes + size > maxBytes
        invariant ByteEvict(images, totalBytes, size, maxBytes) == ByteEvict(old(images), old(totalBytes), size, maxBytes)
        decreases |images|
      {
        var oldest := images[|images| - 1];
        totalBytes := totalBytes - |oldest.data|;
        images := images[..|images| - 1];
      }
    }

    /** AddImage's second eviction loop: drop the oldest record while there are more than `maxSize`. */
    method EvictForCount()
      requires maxSize >= 1
      modifies this`images, this`totalBytes
      ensures State() == CacheState(CountEvict(old(images), old(totalBytes), maxSize).0,
                                    CountEvict(old(images), old(totalBytes), maxSize).1)
    {
      while |images| > maxSize
        invariant CountEvict(images, totalBytes, maxSize) == CountEvict(old(images), old(totalBytes), maxSize)
        decreases |images|
      {
        var oldest := images[|images| - 1];
        totalBytes := totalBytes - |oldest.data|;
        images := images[..|images| - 1];
      }
    }

    /**
     * GetImage: the first cached record whose id matches with extensions
     * stripped, normalised in place; on a miss the primary tier, then the
     * secondary tier with a best-effort write-back to the primary.
     */
    method GetImage(id: string) returns (r: Result<Image, Error>)
      requires Valid()
      modifies this`images, this`primary
      ensures Valid()
      ensures GetOutcome(images, primary, r) == GetFromTiers(old(images), old(primary), old(secondary), codec, maxSize, id)
      ensures totalBytes == old(totalBytes) && secondary == old(secondary)
    {
      var hit := FindCached(StripExt(id));
      match hit {
        case Some(i) => r := NormalizeCached(id, i);
        case None => r := GetUncached(id);
      }
    }

    /** GetImage's hit path: normalise the found record and, on success, replace it in place. */
    method NormalizeCached(id: string, i: nat) returns (r: Result<Image, Error>)
      requires Valid() && FirstIndex(Bases(images), StripExt(id)) == Some(i)
      modifies this`images
      ensures Valid()
      ensures r == Normalize(codec, old(images)[i])
      ensures images == if r.Ok? then old(images)[i := r.value] else old(images)
      ensures GetOutcome(images, primary, r) == GetFromTiers(old(images), old(primary), old(secondary), codec, maxSize, id)
    {
      FirstIndexAt(Bases(images), StripExt(id), i);
      GetKeepsShape(images, primary, secondary, codec, maxSize, id);
      r := Normalize(codec, images[i]);
      if r.Ok? {
        images := images[i := r.value];
      }
    }

    /** GetImage's cache search: the first record whose id, extension stripped, is `baseId`. */
    method FindCached(baseId: string) returns (hit: Option<nat>)
      ensures hit == FirstIndex(Bases(images), baseId)
    {
      var i := 0;
      while i < |images|
        invariant 0 <= i <= |images|
        invariant baseId !in Bases(images)[..i]
      {
        if StripExt(images[i].id) == baseId {
          FirstIndexAt(Bases(images), baseId, i);
          return Some(i);
        }
        i := i + 1;
      }
      assert Bases(images)[..i] == Bases(images);
      return None;
    }

    /** GetImage's miss path, with the invariant carried across it. */
    method GetUncached(id: string) returns (r: Result<Image, Error>)
      requires Valid() && FirstIndex(Bases(images), StripExt(id)).None?
      modifies this`images, this`primary
      ensures Valid()
      ensures GetOutcome(images, primary, r) == GetFromTiers(old(images), old(primary), old(secondary), codec, maxSize, id)
    {
      BaseMissIsIdMiss(images, id);
      MissKeepsShape(images, primary, secondary, codec, maxSize, id);
      r := GetOnMissFromTiers(id);
    }

    /** GetImage after a cache miss: the primary tier, then the secondary tier with write-back. */
    method GetOnMissFromTiers(id: string) returns (r: Result<Image, Error>)
      requires maxSize >= 1
      modifies this`images, this`primary
      ensures GetOutcome(images, primary, r) == GetOnMiss(old(images), old(primary), secondary, codec, maxSize, id)
    {
      var fromPrimary := TierGet(primary, id);
      if fromPrimary.Ok? {
        r := Normalize(codec, fromPrimary.value);
        if r.Ok? {
          InsertReadThrough(r.value);
        }
        return;
      }
      r := fromPrimary;

      if secondary.Some? {
        var fromSecondary := TierGet(secondary.value, id);
        if fromSecondary.Ok? {
          r := Normalize(codec, fromSecondary.value);
          if r.Ok? {
            InsertReadThrough(r.value);
            // Write back to the primary tier; a failure is only logged.
            var saved := TierSave(primary, r.value);
            primary := saved.0;
          }
          return;
        }
        r := fromSecondary;
      }
    }

    /** The read-through insert: drop index 0 when full, append at the end; the byte counter is not touched. */
    method InsertReadThrough(img: Image)
      requires maxSize >= 1
      modifies this`images
      ensures images == ReadThrough(old(images), maxSize, img)
    {
      if |images| >= maxSize {
        images := images[1..];
      }
      images := images + [img];
    }

    /**
     * DeleteImage: drop the first record with exactly this id, then delete
     * from the primary tier (its error is returned, the cache removal stays),
     * then from the secondary tier (its error is only logged).
     */
    method DeleteImage(id: string) returns (err: Option<Error>)
      requires Valid()
      modifies this
      ensures Valid()
      ensures DeleteOutcome(State(), primary, secondary, err) == DeleteEverywhere(old(State()), old(primary), old(secondary), id)
      ensures old(Accounted(State())) ==> Accounted(State())
    {
      DeleteKeepsInvariants(State(), primary, secondary, id, maxSize);
      RemoveCached(id);
      var deleted := TierDelete(primary, id);
      primary := deleted.0;
      if deleted.1.Some? {
        return deleted.1;
      }
      if secondary.Some? {
        // A failure here is only logged.
        var deletedSecondary := TierDelete(secondary.value, id);
        secondary := Some(deletedSecondary.0);
      }
      return None;
    }

    /** DeleteImage's cache part: the search loop and the removal of the first exact match. */
    method RemoveCached(id: string)
      modifies this`images, this`totalBytes
      ensures State() == RemoveFromCache(old(State()), id)
    {
      var i := 0;
      while i < |images|
        invariant 0 <= i <= |images|
        invariant images == old(images) && totalBytes == old(totalBytes)
        invariant id !in Ids(images)[..i]
      {
        if images[i].id == id {
          FirstIndexAt(Ids(images), id, i);
          totalBytes := totalBytes - |images[i].data|;
          images := images[..i] + images[i + 1..];
          return;
        }
        i := i + 1;
      }
      assert Ids(images)[..|images|] == Ids(images);
    }

    /** GetImages: the cached records themselves, newest first. */
    method GetImages() returns (r: seq<Image>)
      requires Valid()
      ensures r == images && |r| <= maxSize && UniqueIds(r)
    {
      return images;
    }
  }
}
