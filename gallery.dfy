/** The identity gallery: an insertion-ordered dictionary from entry key to embedding,
    and the enrollment routine that adds one entry per usable sample photo
    (`get_your_faceImg_feature`). */
module Gallery {
  import opened Normalizer

  /** An embedding vector produced by the (external) embedding network. */
  type Embedding = seq<real>

  /** A Python dict from key to embedding: `keys` is the iteration order, `features` the
      contents. Overwriting a key keeps its place in the order. */
  class Gallery {
    var keys: seq<string>
    var features: map<string, Embedding>

    ghost predicate Valid()
      reads this
    {
      (forall i, j :: 0 <= i < j < |keys| ==> keys[i] != keys[j]) &&
      (forall k :: k in features <==> k in keys)
    }

    /** `features[key] = v`. */
    method Put(key: string, v: Embedding)
      requires Valid()
      modifies this
      ensures Valid()
      ensures keys == if key in old(features) then old(keys) else old(keys) + [key]
      ensures features == old(features)[key := v]
    {
      if key !in features {
        keys := keys + [key];
      }
      features := features[key := v];
    }
  }

  /** `str(n)` for a natural number. */
  function Decimal(n: nat): (s: string)
    ensures 1 <= |s|
    ensures n >= 10 ==> 2 <= |s|
    decreases n
  {
    if n < 10 then [Digit(n)] else Decimal(n / 10) + [Digit(n % 10)]
  }

  function Digit(d: nat): char
    requires d < 10
  {
    "0123456789"[d]
  }

  lemma DigitInjective(a: nat, b: nat)
    requires a < 10 && b < 10 && Digit(a) == Digit(b)
    ensures a == b
  {
  }

  /** Different numbers are written differently. */
  lemma {:induction false} DecimalInjective(a: nat, b: nat)
    requires Decimal(a) == Decimal(b)
    ensures a == b
    decreases a
  {
    if a < 10 && b < 10 {
      DigitInjective(a, b);
    } else if a >= 10 && b >= 10 {
      var da, db := Decimal(a), Decimal(b);
      assert da[..|da| - 1] == Decimal(a / 10);
      assert db[..|db| - 1] == Decimal(b / 10);
      DecimalInjective(a / 10, b / 10);
      DigitInjective(a % 10, b % 10);
    }
  }

  /** The key enrollment gives the photo at position `idx`: `name + '_' + str(idx)`. */
  function EnrollKey(name: string, idx: nat): string {
    name + "_" + Decimal(idx)
  }

  /** Different photos of one enrollment get different keys. */
  lemma EnrollKeyInjective(name: string, i: nat, j: nat)
    requires EnrollKey(name, i) == EnrollKey(name, j)
    ensures i == j
  {
    assert EnrollKey(name, i)[|name| + 1..] == Decimal(i);
    assert EnrollKey(name, j)[|name| + 1..] == Decimal(j);
    DecimalInjective(i, j);
  }

  /** One sample photo: its size, what the detector reports for it, and the embedding the
      network would compute from its crop. */
  datatype Photo = Photo(height: nat, width: nat, detection: Detection, feature: Embedding)

  /** Enrollment either finishes, reporting how many photos it collected, or stops with the
      exception raised at the photo with the given index. */
  datatype Enrollment = Completed(collected: nat) | Aborted(photo: nat)

  /** A photo whose detection gives boxes but whose crop raises: no box has positive
      height, the face is too small and the single returned image cannot be unpacked into
      (crop, box), or the slice of the photo is empty and resizing it raises. */
  predicate Breaks(p: Photo) {
    HasFace(p.detection) && !Crop(p.height, p.width, p.detection.boxes).Cropped?
  }

  /** The entries enrollment writes for the first n photos. */
  function Written(name: string, photos: seq<Photo>, n: nat): map<string, Embedding>
    requires n <= |photos|
  {
    if n == 0 then map[]
    else
      var m := Written(name, photos, n - 1);
      if HasFace(photos[n - 1].detection) then m[EnrollKey(name, n - 1) := photos[n - 1].feature] else m
  }

  /** The keys the first n photos add to the iteration order of a dict holding `known`. */
  function Appended(name: string, photos: seq<Photo>, n: nat, known: set<string>): seq<string>
    requires n <= |photos|
  {
    if n == 0 then []
    else
      var k := EnrollKey(name, n - 1);
      Appended(name, photos, n - 1, known) +
        if HasFace(photos[n - 1].detection) && k !in known then [k] else []
  }

  /** How many of the first n photos have a detected face. */
  function Collected(photos: seq<Photo>, n: nat): nat
    requires n <= |photos|
  {
    if n == 0 then 0
    else Collected(photos, n - 1) + if HasFace(photos[n - 1].detection) then 1 else 0
  }

  /** The written keys are exactly the enroll keys of the photos with a detected face. */
  lemma {:induction false} WrittenDomain(name: string, photos: seq<Photo>, n: nat, k: string)
    requires n <= |photos|
    ensures k in Written(name, photos, n) <==>
            exists i :: 0 <= i < n && HasFace(photos[i].detection) && k == EnrollKey(name, i)
  {
    if n > 0 {
      WrittenDomain(name, photos, n - 1, k);
    }
  }

  /** Each such photo's key holds that photo's embedding: no later photo overwrites it. */
  lemma {:induction false} WrittenValue(name: string, photos: seq<Photo>, n: nat, i: nat)
    requires i < n <= |photos| && HasFace(photos[i].detection)
    ensures EnrollKey(name, i) in Written(name, photos, n)
    ensures Written(name, photos, n)[EnrollKey(name, i)] == photos[i].feature
  {
    if i < n - 1 {
      WrittenValue(name, photos, n - 1, i);
      if HasFace(photos[n - 1].detection) && EnrollKey(name, n - 1) == EnrollKey(name, i) {
        EnrollKeyInjective(name, n - 1, i);
      }
    }
  }

  /** One entry per photo with a detected face: the written keys are pairwise distinct. */
  lemma {:induction false} WrittenCount(name: string, photos: seq<Photo>, n: nat)
    requires n <= |photos|
    ensures |Written(name, photos, n)| == Collected(photos, n)
  {
    if n > 0 {
      WrittenCount(name, photos, n - 1);
      var m := Written(name, photos, n - 1);
      var k := EnrollKey(name, n - 1);
      if HasFace(photos[n - 1].detection) {
        WrittenDomain(name, photos, n - 1, k);
        if k in m {
          var i :| 0 <= i < n - 1 && HasFace(photos[i].detection) && k == EnrollKey(name, i);
          EnrollKeyInjective(name, n - 1, i);
        }
        assert m[k := photos[n - 1].feature].Keys == m.Keys + {k};
      }
    }
  }

  /** The keys appended to the order are the written keys the dict did not hold yet,
      each once. */
  lemma {:induction false} AppendedKeys(name: string, photos: seq<Photo>, n: nat, known: set<string>)
    requires n <= |photos|
    ensures forall k :: k in Appended(name, photos, n, known) <==>
                        k in Written(name, photos, n) && k !in known
    ensures forall i, j :: 0 <= i < j < |Appended(name, photos, n, known)| ==>
                           Appended(name, photos, n, known)[i] != Appended(name, photos, n, known)[j]
  {
    if n > 0 {
      AppendedKeys(name, photos, n - 1, known);
      var k := EnrollKey(name, n - 1);
      WrittenDomain(name, photos, n - 1, k);
      if k in Written(name, photos, n - 1) {
        var i :| 0 <= i < n - 1 && HasFace(photos[i].detection) && k == EnrollKey(name, i);
        EnrollKeyInjective(name, n - 1, i);
      }
    }
  }

  lemma MergeThenPut<K, V>(a: map<K, V>, b: map<K, V>, k: K, v: V)
    ensures (a + b)[k := v] == a + b[k := v]
  {
  }

  /** The key of photo n is not among those written before it. */
  lemma NextKeyFresh(name: string, photos: seq<Photo>, n: nat)
    requires n <= |photos|
    ensures EnrollKey(name, n) !in Written(name, photos, n)
  {
    var k := EnrollKey(name, n);
    WrittenDomain(name, photos, n, k);
    forall i | 0 <= i < n
      ensures k != EnrollKey(name, i)
    {
      if k == EnrollKey(name, i) {
        EnrollKeyInjective(name, n, i);
      }
    }
  }

  /** Enrollment state after photo idx, from the state before it: a photo with a detected
      face writes its key, any other photo changes nothing. */
  lemma EnrollStep(f0: map<string, Embedding>, k0: seq<string>, name: string, photos: seq<Photo>,
                   idx: nat, f: map<string, Embedding>, k: seq<string>)
    requires idx < |photos|
    requires f == f0 + Written(name, photos, idx)
    requires k == k0 + Appended(name, photos, idx, f0.Keys)
    ensures HasFace(photos[idx].detection) ==>
      Collected(photos, idx + 1) == Collected(photos, idx) + 1 &&
      f[EnrollKey(name, idx) := photos[idx].feature] == f0 + Written(name, photos, idx + 1) &&
      (if EnrollKey(name, idx) in f then k else k + [EnrollKey(name, idx)]) ==
        k0 + Appended(name, photos, idx + 1, f0.Keys)
    ensures !HasFace(photos[idx].detection) ==>
      Collected(photos, idx + 1) == Collected(photos, idx) &&
      f == f0 + Written(name, photos, idx + 1) &&
      k == k0 + Appended(name, photos, idx + 1, f0.Keys)
  {
    if HasFace(photos[idx].detection) {
      var key := EnrollKey(name, idx);
      NextKeyFresh(name, photos, idx);
      assert Written(name, photos, idx + 1) == Written(name, photos, idx)[key := photos[idx].feature];
      MergeThenPut(f0, Written(name, photos, idx), key, photos[idx].feature);
    }
  }

  /** None of the first n photos breaks enrollment. */
  predicate NoneBreaks(photos: seq<Photo>, n: nat)
    requires n <= |photos|
  {
    n == 0 || (NoneBreaks(photos, n - 1) && !Breaks(photos[n - 1]))
  }

  lemma {:induction false} NoneBreaksMeans(photos: seq<Photo>, n: nat)
    requires n <= |photos|
    ensures NoneBreaks(photos, n) <==> forall i :: 0 <= i < n ==> !Breaks(photos[i])
  {
    if n > 0 {
      NoneBreaksMeans(photos, n - 1);
    }
  }

  /** The state enrollment has reached after the first n photos, none of which broke. */
  ghost predicate EnrolledUpTo(g: Gallery, features0: map<string, Embedding>, keys0: seq<string>,
                               name: string, photos: seq<Photo>, n: nat)
    reads g
  {
    n <= |photos| && g.Valid() &&
    NoneBreaks(photos, n) &&
    g.features == features0 + Written(name, photos, n) &&
    g.keys == keys0 + Appended(name, photos, n, features0.Keys)
  }

  /** get_your_faceImg_feature: one pass over the sample photos in directory order, adding
      `name_idx` for every photo whose detection neither raised nor came back empty. */
  method Enroll(g: Gallery, name: string, photos: seq<Photo>) returns (outcome: Enrollment)
    requires g.Valid()
    modifies g
    ensures outcome.Completed? ==>
      EnrolledUpTo(g, old(g.features), old(g.keys), name, photos, |photos|) &&
      outcome.collected == Collected(photos, |photos|)
    ensures outcome.Aborted? ==>
      outcome.photo < |photos| && Breaks(photos[outcome.photo]) &&
      EnrolledUpTo(g, old(g.features), old(g.keys), name, photos, outcome.photo)
  {
    ghost var features0, keys0 := g.features, g.keys;
    var useful := 0;
    for idx := 0 to |photos|
      invariant EnrolledUpTo(g, features0, keys0, name, photos, idx)
      invariant useful == Collected(photos, idx)
    {
      var photo := photos[idx];
      EnrollStep(features0, keys0, name, photos, idx, g.features, g.keys);
      if photo.detection.Detected? && |photo.detection.boxes| > 0 {
        var crop := CropFace(photo.height, photo.width, photo.detection.boxes);
        if !crop.Cropped? {
          return Aborted(idx);
        }
        g.Put(EnrollKey(name, idx), photo.feature);
        useful := useful + 1;
      }
    }
    return Completed(useful);
  }
}
