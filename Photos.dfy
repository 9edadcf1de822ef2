/**
 The photo collection of the hair-growth journal: the entry record, the pure
 transforms the App component applies to its `photos` list (prepend a batch,
 filter out an id, mark everything uploaded) and the progress statistics shown
 under "Your Progress".
 */
module Photos {

  /** Values produced by the browser; the model never looks inside them. */
  type PhotoId(==, !new)
  type FileHandle(==, !new)
  type PreviewUrl(==, !new)
  type Timestamp(==, !new)

  datatype Option<+T> = None | Some(value: T)

  /** One tracked photo (the `HairPhoto` record). */
  datatype Photo = Photo(
    id: PhotoId,
    file: FileHandle,
    preview: PreviewUrl,
    date: Timestamp,
    notes: Option<string>,
    uploaded: bool)

  /** What the environment mints for each dropped file: a random id, an object
      URL for the preview and the clock reading. */
  datatype Minted = Minted(id: PhotoId, preview: PreviewUrl, date: Timestamp)

  /** The entry created for a dropped file: no notes, not uploaded. */
  function FreshEntry(file: FileHandle, m: Minted): Photo
  {
    Photo(m.id, file, m.preview, m.date, None, false)
  }

  // ---------------------------------------------------------------------------
  // Adding a batch

  /** One fresh entry per file, in the order the files were dropped. */
  function NewEntries(files: seq<FileHandle>, minted: seq<Minted>): (r: seq<Photo>)
    requires |minted| == |files|
    ensures |r| == |files|
    ensures forall i :: 0 <= i < |r| ==>
      r[i].id == minted[i].id && r[i].file == files[i] && r[i].preview == minted[i].preview &&
      r[i].date == minted[i].date && r[i].notes == None && !r[i].uploaded
  {
    if files == [] then []
    else [FreshEntry(files[0], minted[0])] + NewEntries(files[1..], minted[1..])
  }

  /** The collection after a drop: the new entries come first, then the old ones. */
  function Added(prev: seq<Photo>, files: seq<FileHandle>, minted: seq<Minted>): (r: seq<Photo>)
    requires |minted| == |files|
    ensures |r| == |files| + |prev|
    ensures forall i :: 0 <= i < |files| ==> r[i] == FreshEntry(files[i], minted[i])
    ensures forall j :: 0 <= j < |prev| ==> r[|files| + j] == prev[j]
    ensures files == [] ==> r == prev
  {
    NewEntries(files, minted) + prev
  }

  lemma {:induction false} NewEntriesAppend(f1: seq<FileHandle>, m1: seq<Minted>, f2: seq<FileHandle>, m2: seq<Minted>)
    requires |m1| == |f1| && |m2| == |f2|
    ensures NewEntries(f1 + f2, m1 + m2) == NewEntries(f1, m1) + NewEntries(f2, m2)
  {
    if f1 != [] {
      assert (f1 + f2)[1..] == f1[1..] + f2;
      assert (m1 + m2)[1..] == m1[1..] + m2;
      NewEntriesAppend(f1[1..], m1[1..], f2, m2);
    }
  }

  /** Two drops in a row equal one drop of the later batch followed by the
      earlier one: newest batch first, each batch in its own order. */
  lemma AddedTwice(s: seq<Photo>, f1: seq<FileHandle>, m1: seq<Minted>, f2: seq<FileHandle>, m2: seq<Minted>)
    requires |m1| == |f1| && |m2| == |f2|
    ensures Added(Added(s, f1, m1), f2, m2) == Added(s, f2 + f1, m2 + m1)
    ensures |Added(Added(s, f1, m1), f2, m2)| == |s| + |f1| + |f2|
  {
    var n1, n2 := NewEntries(f1, m1), NewEntries(f2, m2);
    NewEntriesAppend(f2, m2, f1, m1);
    calc {
      Added(Added(s, f1, m1), f2, m2);
      n2 + (n1 + s);
      (n2 + n1) + s;
      NewEntries(f2 + f1, m2 + m1) + s;
    }
  }

  // ---------------------------------------------------------------------------
  // Deleting by id

  /** The collection without the entries whose id is `id` (the `.filter`). */
  function WithoutId(s: seq<Photo>, id: PhotoId): (r: seq<Photo>)
    ensures |r| <= |s|
    ensures forall p :: p in r <==> p in s && p.id != id
  {
    if s == [] then []
    else if s[0].id == id then WithoutId(s[1..], id)
    else [s[0]] + WithoutId(s[1..], id)
  }

  /** Exactly the entries with that id are dropped: every other entry keeps its
      multiplicity. */
  lemma {:induction false} WithoutIdMultiplicity(s: seq<Photo>, id: PhotoId, p: Photo)
    ensures multiset(WithoutId(s, id))[p] == if p.id == id then 0 else multiset(s)[p]
  {
    if s != [] {
      WithoutIdMultiplicity(s[1..], id, p);
      assert s == [s[0]] + s[1..];
    }
  }

  /** Filtering distributes over concatenation, so the survivors keep their
      relative order. */
  lemma {:induction false} WithoutIdAppend(a: seq<Photo>, b: seq<Photo>, id: PhotoId)
    ensures WithoutId(a + b, id) == WithoutId(a, id) + WithoutId(b, id)
  {
    if a != [] {
      assert (a + b)[0] == a[0] && (a + b)[1..] == a[1..] + b;
      WithoutIdAppend(a[1..], b, id);
      if a[0].id == id {
        assert WithoutId(a + b, id) == WithoutId(a[1..] + b, id);
      } else {
        assert WithoutId(a + b, id) == [a[0]] + WithoutId(a[1..] + b, id);
      }
    } else {
      assert a + b == b;
    }
  }

  /** Deleting an id that no entry carries changes nothing. */
  lemma {:induction false} WithoutAbsentId(s: seq<Photo>, id: PhotoId)
    requires forall i :: 0 <= i < |s| ==> s[i].id != id
    ensures WithoutId(s, id) == s
  {
    if s != [] {
      WithoutAbsentId(s[1..], id);
    }
  }

  /** Deleting the same id twice is deleting it once. */
  lemma {:induction false} WithoutIdIdempotent(s: seq<Photo>, id: PhotoId)
    ensures WithoutId(WithoutId(s, id), id) == WithoutId(s, id)
  {
    var r := WithoutId(s, id);
    forall i | 0 <= i < |r| ensures r[i].id != id {
      assert r[i] in r;
    }
    WithoutAbsentId(r, id);
  }

  /** No two entries share an id. The source does not enforce this (ids are
      random strings); it holds when the minted ids are fresh. */
  ghost predicate UniqueIds(s: seq<Photo>)
  {
    forall i, j :: 0 <= i < j < |s| ==> s[i].id != s[j].id
  }

  /** When no other entry shares the id of entry `i`, deleting that id removes
      entry `i` and nothing else (so with unique ids a delete removes one). */
  lemma DeleteSoleIdRemovesOne(s: seq<Photo>, i: nat)
    requires i < |s|
    requires forall k :: 0 <= k < |s| && k != i ==> s[k].id != s[i].id
    ensures WithoutId(s, s[i].id) == s[..i] + s[i + 1..]
  {
    var front, back := s[..i], s[i + 1..];
    SplitAround(s, i, front, back);
    WithoutIdAround(front, s[i], back);
  }

  lemma SplitAround(s: seq<Photo>, i: nat, front: seq<Photo>, back: seq<Photo>)
    requires i < |s| && front == s[..i] && back == s[i + 1..]
    requires forall k :: 0 <= k < |s| && k != i ==> s[k].id != s[i].id
    ensures s == front + [s[i]] + back
    ensures forall k :: 0 <= k < |front| ==> front[k].id != s[i].id
    ensures forall k :: 0 <= k < |back| ==> back[k].id != s[i].id
  {
    assert s == s[..i] + s[i..];
    assert s[i..] == [s[i]] + s[i + 1..];
    forall k | 0 <= k < |back| ensures back[k].id != s[i].id {
      assert back[k] == s[i + 1 + k];
    }
  }

  lemma WithoutIdAround(front: seq<Photo>, p: Photo, back: seq<Photo>)
    requires forall k :: 0 <= k < |front| ==> front[k].id != p.id
    requires forall k :: 0 <= k < |back| ==> back[k].id != p.id
    ensures WithoutId(front + [p] + back, p.id) == front + back
  {
    var id := p.id;
    assert WithoutId(front + [p] + back, id) == WithoutId(front + [p], id) + WithoutId(back, id) by {
      WithoutIdAppend(front + [p], back, id);
    }
    assert WithoutId(front + [p], id) == WithoutId(front, id) + WithoutId([p], id) by {
      WithoutIdAppend(front, [p], id);
    }
    assert WithoutId(front, id) == front by {
      WithoutAbsentId(front, id);
    }
    assert WithoutId(back, id) == back by {
      WithoutAbsentId(back, id);
    }
    assert WithoutId([p], id) == [] by {
      assert [p][1..] == [];
    }
    assert front + [] == front;
  }

  /** Fresh, pairwise distinct minted ids keep the ids of the collection unique. */
  lemma AddedKeepsIdsUnique(prev: seq<Photo>, files: seq<FileHandle>, minted: seq<Minted>)
    requires |minted| == |files| && UniqueIds(prev)
    requires forall i, j :: 0 <= i < j < |minted| ==> minted[i].id != minted[j].id
    requires forall i, j :: 0 <= i < |minted| && 0 <= j < |prev| ==> minted[i].id != prev[j].id
    ensures UniqueIds(Added(prev, files, minted))
  {
    var r := Added(prev, files, minted);
    var n := |files|;
    forall i, j | 0 <= i < j < |r| ensures r[i].id != r[j].id {
      if j < n {
        assert r[i].id == minted[i].id && r[j].id == minted[j].id;
      } else if i < n {
        assert r[i].id == minted[i].id && r[j] == prev[j - n];
      } else {
        assert r[i] == prev[i - n] && r[j] == prev[j - n];
      }
    }
  }

  /** Deleting keeps the ids of the collection unique. */
  lemma {:induction false} WithoutIdKeepsIdsUnique(s: seq<Photo>, id: PhotoId)
    requires UniqueIds(s)
    ensures UniqueIds(WithoutId(s, id))
  {
    if s != [] {
      WithoutIdKeepsIdsUnique(s[1..], id);
      var t := WithoutId(s[1..], id);
      forall k | 0 <= k < |t| ensures t[k].id != s[0].id {
        assert t[k] in t;
        var j :| 0 <= j < |s[1..]| && s[1..][j] == t[k];
        assert s[j + 1] == t[k];
      }
    }
  }

  // ---------------------------------------------------------------------------
  // Completing an upload

  /** Every entry with its `uploaded` flag set (the `.map`). */
  function MarkAllUploaded(s: seq<Photo>): (r: seq<Photo>)
    ensures |r| == |s|
    ensures forall i :: 0 <= i < |s| ==> r[i] == s[i].(uploaded := true)
  {
    if s == [] then [] else [s[0].(uploaded := true)] + MarkAllUploaded(s[1..])
  }

  // ---------------------------------------------------------------------------
  // Statistics

  /** The number of uploaded entries (`photos.filter(p => p.uploaded).length`). */
  function UploadedCount(s: seq<Photo>): (r: nat)
    ensures r <= |s|
    ensures r == |s| <==> forall i :: 0 <= i < |s| ==> s[i].uploaded
    ensures r == 0 <==> forall i :: 0 <= i < |s| ==> !s[i].uploaded
  {
    if s == [] then 0 else (if s[0].uploaded then 1 else 0) + UploadedCount(s[1..])
  }

  lemma {:induction false} UploadedCountAppend(a: seq<Photo>, b: seq<Photo>)
    ensures UploadedCount(a + b) == UploadedCount(a) + UploadedCount(b)
  {
    if a != [] {
      assert (a + b)[0] == a[0] && (a + b)[1..] == a[1..] + b;
      UploadedCountAppend(a[1..], b);
    } else {
      assert a + b == b;
    }
  }

  /** A drop adds entries but no uploaded ones. */
  lemma AddedUploadedCount(prev: seq<Photo>, files: seq<FileHandle>, minted: seq<Minted>)
    requires |minted| == |files|
    ensures UploadedCount(Added(prev, files, minted)) == UploadedCount(prev)
  {
    UploadedCountAppend(NewEntries(files, minted), prev);
  }

  /** Deleting never raises the uploaded count, nor the pending count. */
  lemma {:induction false} WithoutIdUploadedCount(s: seq<Photo>, id: PhotoId)
    ensures UploadedCount(WithoutId(s, id)) <= UploadedCount(s)
    ensures |WithoutId(s, id)| - UploadedCount(WithoutId(s, id)) <= |s| - UploadedCount(s)
  {
    if s != [] {
      WithoutIdUploadedCount(s[1..], id);
    }
  }

  /** Deleting from a fully uploaded collection leaves it fully uploaded. */
  lemma WithoutIdKeepsAllUploaded(s: seq<Photo>, id: PhotoId)
    requires forall k :: 0 <= k < |s| ==> s[k].uploaded
    ensures UploadedCount(WithoutId(s, id)) == |WithoutId(s, id)|
  {
    var left := WithoutId(s, id);
    forall k | 0 <= k < |left| ensures left[k].uploaded {
      assert left[k] in s;
    }
  }

  /** Deleting an unshared id from a fully uploaded collection leaves one photo
      fewer, all of them uploaded. */
  lemma DeleteSoleIdFromUploaded(s: seq<Photo>, i: nat)
    requires i < |s|
    requires forall k :: 0 <= k < |s| && k != i ==> s[k].id != s[i].id
    requires forall k :: 0 <= k < |s| ==> s[k].uploaded
    ensures |WithoutId(s, s[i].id)| == |s| - 1
    ensures UploadedCount(WithoutId(s, s[i].id)) == |s| - 1
  {
    DeleteSoleIdRemovesOne(s, i);
    WithoutIdKeepsAllUploaded(s, s[i].id);
  }

  // ---------------------------------------------------------------------------
  // The uploaded flag never reverts

  /** Every entry of `after` that shares its id with an uploaded entry of
      `before` is uploaded too. */
  ghost predicate FlagsNeverRevert(before: seq<Photo>, after: seq<Photo>)
  {
    forall i, j :: 0 <= i < |before| && 0 <= j < |after| && before[i].id == after[j].id && before[i].uploaded ==>
      after[j].uploaded
  }

  /** Completing an upload only raises flags. */
  lemma MarkAllUploadedNeverReverts(s: seq<Photo>)
    ensures FlagsNeverRevert(s, MarkAllUploaded(s))
  {
  }

  /** With unique ids, a delete keeps the flag of every surviving entry. */
  lemma WithoutIdNeverReverts(s: seq<Photo>, id: PhotoId)
    requires UniqueIds(s)
    ensures FlagsNeverRevert(s, WithoutId(s, id))
  {
    var r := WithoutId(s, id);
    forall i, j | 0 <= i < |s| && 0 <= j < |r| && s[i].id == r[j].id && s[i].uploaded
      ensures r[j].uploaded
    {
      assert r[j] in s;
      var k :| 0 <= k < |s| && s[k] == r[j];
      assert k == i;
    }
  }

  /** With unique ids and fresh minted ids, a drop keeps the flag of every old
      entry; the new entries carry ids no old entry has. */
  lemma AddedNeverReverts(prev: seq<Photo>, files: seq<FileHandle>, minted: seq<Minted>)
    requires |minted| == |files| && UniqueIds(prev)
    requires forall i, j :: 0 <= i < |minted| && 0 <= j < |prev| ==> minted[i].id != prev[j].id
    ensures FlagsNeverRevert(prev, Added(prev, files, minted))
  {
    var r := Added(prev, files, minted);
    var n := |files|;
    forall i, j | 0 <= i < |prev| && 0 <= j < |r| && prev[i].id == r[j].id && prev[i].uploaded
      ensures r[j].uploaded
    {
      assert j >= n;
      assert r[j] == prev[j - n];
    }
  }

  /** `Math.round(100 * uploaded / total)` in exact arithmetic (halves round
      up); RoundedPercentIsNearest states that it is the nearest percent. */
  function RoundedPercent(uploaded: nat, total: nat): (r: nat)
    requires 0 < total && uploaded <= total
    ensures r <= 100
    ensures r == 100 <==> 200 * uploaded >= 199 * total
    ensures r == 0 <==> 200 * uploaded < total
  {
    var q := (200 * uploaded + total) / (2 * total);
    PercentBounds(uploaded, total, q);
    q
  }

  /** r - 1/2 <= 100 * uploaded / total < r + 1/2. */
  lemma RoundedPercentIsNearest(uploaded: nat, total: nat)
    requires 0 < total && uploaded <= total
    ensures var r := RoundedPercent(uploaded, total);
      2 * total * r <= 200 * uploaded + total < 2 * total * (r + 1)
  {
    PercentBounds(uploaded, total, RoundedPercent(uploaded, total));
  }

  lemma PercentBounds(u: nat, n: nat, q: int)
    requires 0 < n && u <= n
    requires q == (200 * u + n) / (2 * n)
    ensures 0 <= q <= 100
    ensures 2 * n * q <= 200 * u + n < 2 * n * (q + 1)
    ensures q == 100 <==> 200 * u >= 199 * n
    ensures q == 0 <==> 200 * u < n
  {
    var a, b := 200 * u + n, 2 * n;
    assert b * q <= a < b * q + b by {
      assert b * q + a % b == a;
    }
    assert b * (q + 1) == b * q + b;
    FactorLess(b, q, 101);
    FactorLess(b, 99, q);
    FactorLess(b, 0, q);
    FactorLess(b, q, 1);
  }

  /** Cancelling a positive factor from a strict inequality. */
  lemma FactorLess(b: int, x: int, y: int)
    requires b > 0
    ensures b * x < b * y ==> x < y
  {
    if x >= y {
      assert b * x - b * y == b * (x - y);
    }
  }

  /** The completion percentage shown: 0 for an empty collection, otherwise the
      uploaded share rounded to the nearest whole percent (halves up). */
  function Completion(s: seq<Photo>): (r: nat)
    ensures r <= 100
    ensures |s| == 0 ==> r == 0
    ensures |s| > 0 ==> (r == 100 <==> 200 * UploadedCount(s) >= 199 * |s|)
    ensures |s| > 0 && (forall i :: 0 <= i < |s| ==> s[i].uploaded) ==> r == 100
    ensures (forall i :: 0 <= i < |s| ==> !s[i].uploaded) ==> r == 0
  {
    if |s| > 0 then RoundedPercent(UploadedCount(s), |s|) else 0
  }

  /** A non-empty collection shows its uploaded share rounded to the nearest
      whole percent. */
  lemma CompletionIsNearestPercent(s: seq<Photo>)
    requires |s| > 0
    ensures 2 * |s| * Completion(s) <= 200 * UploadedCount(s) + |s| < 2 * |s| * (Completion(s) + 1)
  {
    RoundedPercentIsNearest(UploadedCount(s), |s|);
  }

  /** Below 200 photos the display reads 100% exactly when every photo is
      uploaded. */
  lemma CompletionFullIffAllUploaded(s: seq<Photo>)
    requires |s| < 200
    ensures Completion(s) == 100 <==> |s| > 0 && forall i :: 0 <= i < |s| ==> s[i].uploaded
  {
    if |s| > 0 {
      var u, n := UploadedCount(s), |s|;
      if u < n {
        assert 200 * u <= 200 * n - 200 < 199 * n;
      }
    }
  }

  /** From 200 photos on, one pending photo still reads as 100%. */
  lemma CompletionFullWithOnePending(s: seq<Photo>)
    requires |s| >= 200 && UploadedCount(s) == |s| - 1
    ensures Completion(s) == 100
    ensures exists i :: 0 <= i < |s| && !s[i].uploaded
  {
    assert 200 * (|s| - 1) >= 199 * |s|;
  }

  /** After an upload completes every entry counts as uploaded. */
  lemma MarkAllUploadedStats(s: seq<Photo>)
    ensures UploadedCount(MarkAllUploaded(s)) == |s|
    ensures |s| > 0 ==> Completion(MarkAllUploaded(s)) == 100
  {
    var r := MarkAllUploaded(s);
    assert forall i :: 0 <= i < |r| ==> r[i].uploaded;
  }
}
