/** reprocess(): walk the entries of "<path>original/" and, for every regular
    file that is not a .gitignore, make its optimized image and then its
    thumbnail. The directory listing is given as a sequence of entries in the
    iterator's order. */
module Reprocess {
  import opened Results
  import opened Effects
  import opened Layout
  import opened Images
  import Uploads

  /** One directory entry as the iterator reports it. */
  datatype Entry = Entry(name: string, isDot: bool, isDir: bool, extension: string)

  /** Entries the sweep works on: not "." or "..", not a directory, and not
      a file whose extension is "gitignore". */
  predicate Eligible(e: Entry) {
    !e.isDot && !e.isDir && e.extension != "gitignore"
  }

  /** `effect` is one of the two images derived from the original of `name`. */
  predicate DerivedFrom(path: string, effect: Effect, name: string) {
    && effect.Saved?
    && effect.source == OriginalPath(path, name)
    && (effect.target == OptimizedPath(path, name) || effect.target == ThumbnailPath(path, name))
  }

  predicate Readable(path: string, e: Entry, read: ImageReader) {
    read(OriginalPath(path, e.name)).Some?
  }

  /** The loop of reprocess() over `entries`, as a recursive reference. The
      image library's exception is not caught, so the first unreadable
      original ends the sweep with the writes made so far. */
  function Sweep(path: string, entries: seq<Entry>, read: ImageReader): (r: Run<()>)
    ensures |r.effects| <= 2 * |entries|
    ensures r.outcome.Failure? ==> r.outcome.error.ImageNotReadable?
    decreases |entries|
  {
    if |entries| == 0 then Run([], Success(()))
    else
      var e := entries[0];
      var rest := Sweep(path, entries[1..], read);
      if !Eligible(e) then rest
      else
        var derived := Derive(path, e.name, read);
        if derived.outcome.Failure? then derived
        else After(derived.effects, rest)
  }

  /** reprocess() as a whole: the directory iterator throws when
      "<path>original/" does not exist; otherwise the sweep runs. */
  method Reprocess(path: string, listing: Option<seq<Entry>>, read: ImageReader) returns (r: Run<()>)
    ensures listing.None? ==> r == Run([], Failure(DirectoryMissing(path + OriginalFolder)))
    ensures listing.Some? ==> r == Sweep(path, listing.value, read)
  {
    if listing.None? {
      return Run([], Failure(DirectoryMissing(path + OriginalFolder)));
    }
    var entries := listing.value;
    var effects: seq<Effect> := [];
    var i := 0;
    while i < |entries|
      invariant 0 <= i <= |entries|
      invariant Sweep(path, entries, read) == After(effects, Sweep(path, entries[i..], read))
    {
      var e := entries[i];
      SweepStep(path, entries, i, read);
      if Eligible(e) {
        var derived := Derive(path, e.name, read);
        if derived.outcome.Failure? {
          return Run(effects + derived.effects, derived.outcome);
        }
        AfterAfter(effects, derived.effects, Sweep(path, entries[i + 1..], read));
        effects := effects + derived.effects;
      }
      i := i + 1;
    }
    return Run(effects, Success(()));
  }

  /** `effect` is a derived image of some eligible entry of `entries`. */
  predicate DerivedFromSome(path: string, entries: seq<Entry>, effect: Effect) {
    exists e :: e in entries && Eligible(e) && DerivedFrom(path, effect, e.name)
  }

  /** Every effect in `effects` is a derived image of an eligible entry of
      `entries`, read from that entry's original. */
  predicate WritesFrom(path: string, entries: seq<Entry>, effects: seq<Effect>) {
    forall k :: 0 <= k < |effects| ==> DerivedFromSome(path, entries, effects[k])
  }

  /** Every write of the sweep is a derived image of an eligible entry, read
      from that entry's original. */
  lemma {:induction false} SweepWritesOnlyDerived(path: string, entries: seq<Entry>, read: ImageReader)
    ensures WritesFrom(path, entries, Sweep(path, entries, read).effects)
    decreases |entries|
  {
    if |entries| > 0 {
      var e := entries[0];
      var tail := entries[1..];
      var rest := Sweep(path, tail, read);
      var d := Derive(path, e.name, read);
      SweepWritesOnlyDerived(path, tail, read);
      WritesFromWiden(path, tail, entries, rest.effects);
      SweepUnfold(path, entries, read);
      if Eligible(e) && d.outcome.Success? {
        assert e in entries;
        DeriveWritesFrom(path, e, entries, read);
        WritesFromConcat(path, entries, d.effects, rest.effects);
        assert Sweep(path, entries, read).effects == d.effects + rest.effects;
      }
    }
  }

  lemma WritesFromWiden(path: string, small: seq<Entry>, big: seq<Entry>, effects: seq<Effect>)
    requires forall x :: x in small ==> x in big
    requires WritesFrom(path, small, effects)
    ensures WritesFrom(path, big, effects)
  {
    forall k | 0 <= k < |effects|
      ensures DerivedFromSome(path, big, effects[k])
    {
      assert DerivedFromSome(path, small, effects[k]);
      var e :| e in small && Eligible(e) && DerivedFrom(path, effects[k], e.name);
      assert e in big;
    }
  }

  lemma WritesFromConcat(path: string, entries: seq<Entry>, a: seq<Effect>, b: seq<Effect>)
    requires WritesFrom(path, entries, a) && WritesFrom(path, entries, b)
    ensures WritesFrom(path, entries, a + b)
  {
    forall k | 0 <= k < |a + b|
      ensures DerivedFromSome(path, entries, (a + b)[k])
    {
      if k < |a| {
        assert (a + b)[k] == a[k];
      } else {
        assert (a + b)[k] == b[k - |a|];
      }
    }
  }

  lemma DeriveWritesFrom(path: string, e: Entry, entries: seq<Entry>, read: ImageReader)
    requires e in entries && Eligible(e)
    ensures WritesFrom(path, entries, Derive(path, e.name, read).effects)
  {
    var d := Derive(path, e.name, read);
    forall k | 0 <= k < |d.effects|
      ensures DerivedFromSome(path, entries, d.effects[k])
    {
      assert DerivedFrom(path, d.effects[k], e.name);
    }
  }

  /** The sweep fails exactly when some eligible original cannot be read, and
      the exception names such an original. */
  lemma {:induction false} SweepFailsIff(path: string, entries: seq<Entry>, read: ImageReader)
    ensures Sweep(path, entries, read).outcome.Failure?
        <==> exists e :: e in entries && Eligible(e) && !Readable(path, e, read)
    ensures Sweep(path, entries, read).outcome.Failure? ==>
      exists e :: e in entries && Eligible(e) && !Readable(path, e, read)
        && Sweep(path, entries, read).outcome.error == ImageNotReadable(OriginalPath(path, e.name))
    decreases |entries|
  {
    if |entries| > 0 {
      var e := entries[0];
      var tail := entries[1..];
      SweepFailsIff(path, tail, read);
      assert e in entries;
      assert forall x :: x in tail ==> x in entries;
      assert forall x :: x in entries ==> x == e || x in tail;
    }
  }

  /** The image library's exception is not caught: the sweep stops at the
      first eligible entry whose original cannot be read, after writing the
      derived images of every eligible entry before it and nothing after. */
  lemma SweepStopsAtFirstUnreadable(path: string, a: seq<Entry>, e: Entry, b: seq<Entry>, read: ImageReader)
    requires forall x :: x in a && Eligible(x) ==> Readable(path, x, read)
    requires Eligible(e) && !Readable(path, e, read)
    ensures AllReadable(path, Survivors(a), read)
    ensures Sweep(path, a + [e] + b, read)
      == Run(Writes(path, Survivors(a), read), Failure(ImageNotReadable(OriginalPath(path, e.name))))
  {
    SweepOfReadable(path, a, read);
    SweepAppend(path, a, [e] + b, read);
    assert a + [e] + b == a + ([e] + b);
    assert ([e] + b)[0] == e;
  }

  /** One step of the sweep at position `i` of the listing, for the loop of
      Reprocess. */
  lemma SweepStep(path: string, entries: seq<Entry>, i: nat, read: ImageReader)
    requires i < |entries|
    ensures !Eligible(entries[i]) ==> Sweep(path, entries[i..], read) == Sweep(path, entries[i + 1..], read)
    ensures Eligible(entries[i]) && Derive(path, entries[i].name, read).outcome.Failure? ==>
      Sweep(path, entries[i..], read) == Derive(path, entries[i].name, read)
    ensures Eligible(entries[i]) && Derive(path, entries[i].name, read).outcome.Success? ==>
      Sweep(path, entries[i..], read)
        == After(Derive(path, entries[i].name, read).effects, Sweep(path, entries[i + 1..], read))
  {
    SweepUnfold(path, entries[i..], read);
    assert entries[i..][0] == entries[i];
    assert entries[i..][1..] == entries[i + 1..];
  }

  /** Running after `a` and then after `b` is running after `a + b`. */
  lemma AfterAfter<T>(a: seq<Effect>, b: seq<Effect>, run: Run<T>)
    ensures After(a, After(b, run)) == After(a + b, run)
  {
    assert a + (b + run.effects) == (a + b) + run.effects;
  }

  /** One step of the sweep, for the loop of Reprocess. */
  lemma SweepUnfold(path: string, entries: seq<Entry>, read: ImageReader)
    requires |entries| > 0
    ensures !Eligible(entries[0]) ==> Sweep(path, entries, read) == Sweep(path, entries[1..], read)
    ensures Eligible(entries[0]) && Derive(path, entries[0].name, read).outcome.Failure? ==>
      Sweep(path, entries, read) == Derive(path, entries[0].name, read)
    ensures Eligible(entries[0]) && Derive(path, entries[0].name, read).outcome.Success? ==>
      Sweep(path, entries, read)
        == After(Derive(path, entries[0].name, read).effects, Sweep(path, entries[1..], read))
  {
  }

  // ---------------------------------------------------------------------------
  // Reference definitions: filter, then derive
  // ---------------------------------------------------------------------------

  /** The entries the sweep works on, in iteration order. */
  function Survivors(entries: seq<Entry>): (s: seq<Entry>)
    ensures forall e :: e in s <==> e in entries && Eligible(e)
    ensures |s| <= |entries|
    decreases |entries|
  {
    if |entries| == 0 then []
    else if Eligible(entries[0]) then [entries[0]] + Survivors(entries[1..])
    else Survivors(entries[1..])
  }

  predicate AllReadable(path: string, files: seq<Entry>, read: ImageReader) {
    forall i :: 0 <= i < |files| ==> read(OriginalPath(path, files[i].name)).Some?
  }

  /** For each file in order, its optimized image then its thumbnail. */
  function Writes(path: string, files: seq<Entry>, read: ImageReader): (w: seq<Effect>)
    requires AllReadable(path, files, read)
    ensures |w| == 2 * |files|
    ensures forall i :: 0 <= i < |files| ==>
      w[2 * i] == OptimizedWrite(path, files[i].name, read(OriginalPath(path, files[i].name)).value)
      && w[2 * i + 1] == ThumbnailWrite(path, files[i].name)
    decreases |files|
  {
    if |files| == 0 then []
    else
      var f := files[0];
      [OptimizedWrite(path, f.name, read(OriginalPath(path, f.name)).value), ThumbnailWrite(path, f.name)]
        + Writes(path, files[1..], read)
  }

  // ---------------------------------------------------------------------------
  // Properties
  // ---------------------------------------------------------------------------

  /** When every eligible original is readable, the sweep succeeds and its
      writes are exactly: for each surviving entry in iteration order, the
      optimized image and then the thumbnail. Nothing is written for any other
      entry. */
  lemma {:induction false} SweepOfReadable(path: string, entries: seq<Entry>, read: ImageReader)
    requires forall e :: e in entries && Eligible(e) ==> Readable(path, e, read)
    ensures AllReadable(path, Survivors(entries), read)
    ensures Sweep(path, entries, read) == Run(Writes(path, Survivors(entries), read), Success(()))
    decreases |entries|
  {
    var s := Survivors(entries);
    forall i | 0 <= i < |s|
      ensures read(OriginalPath(path, s[i].name)).Some?
    {
      assert s[i] in s;
      assert Readable(path, s[i], read);
    }
    if |entries| > 0 {
      assert entries[0] in entries;
      SweepOfReadable(path, entries[1..], read);
    }
  }

  /** On success the sweep writes 2 images per surviving entry. */
  lemma SweepCount(path: string, entries: seq<Entry>, read: ImageReader)
    requires Sweep(path, entries, read).outcome.Success?
    ensures |Sweep(path, entries, read).effects| == 2 * |Survivors(entries)|
  {
    SweepFailsIff(path, entries, read);
    SweepOfReadable(path, entries, read);
  }

  /** Sweeping a listing in two parts is sweeping the parts one after the
      other, unless the first part already ended in an exception. */
  lemma {:induction false} SweepAppend(path: string, a: seq<Entry>, b: seq<Entry>, read: ImageReader)
    ensures Sweep(path, a + b, read)
      == if Sweep(path, a, read).outcome.Failure? then Sweep(path, a, read)
         else After(Sweep(path, a, read).effects, Sweep(path, b, read))
    decreases |a|
  {
    if |a| > 0 {
      assert (a + b)[0] == a[0];
      assert (a + b)[1..] == a[1..] + b;
      SweepAppend(path, a[1..], b, read);
    } else {
      assert a + b == b;
    }
  }

  /** Dot entries, directories and .gitignore files change nothing, wherever
      they appear in the listing. */
  lemma SweepIgnoresIneligible(path: string, a: seq<Entry>, e: Entry, b: seq<Entry>, read: ImageReader)
    requires !Eligible(e)
    ensures Sweep(path, a + [e] + b, read) == Sweep(path, a + b, read)
  {
    SweepAppend(path, a, [e] + b, read);
    SweepAppend(path, a, b, read);
    assert a + [e] + b == a + ([e] + b);
    assert ([e] + b)[1..] == b;
  }

  /** Every eligible entry of a successful sweep gets both derived images. */
  lemma SweepCoversSurvivors(path: string, entries: seq<Entry>, read: ImageReader, e: Entry)
    requires Sweep(path, entries, read).outcome.Success?
    requires e in entries && Eligible(e)
    ensures read(OriginalPath(path, e.name)).Some?
    ensures read(OriginalPath(path, e.name)).Some? &&
            OptimizedWrite(path, e.name, read(OriginalPath(path, e.name)).value)
            in Sweep(path, entries, read).effects
    ensures ThumbnailWrite(path, e.name) in Sweep(path, entries, read).effects
  {
    SweepFailsIff(path, entries, read);
    SweepOfReadable(path, entries, read);
    var s := Survivors(entries);
    var i :| 0 <= i < |s| && s[i] == e;
    var w := Writes(path, s, read);
    assert w[2 * i] == OptimizedWrite(path, e.name, read(OriginalPath(path, e.name)).value);
    assert w[2 * i + 1] == ThumbnailWrite(path, e.name);
  }

  /** With plain entry names, the sweep never writes over an original file. */
  lemma SweepKeepsOriginals(path: string, entries: seq<Entry>, read: ImageReader, g: string)
    requires forall e :: e in entries ==> IsPlainName(e.name)
    requires IsPlainName(g)
    ensures forall k :: 0 <= k < |Sweep(path, entries, read).effects| ==>
      Sweep(path, entries, read).effects[k].Saved? &&
      Sweep(path, entries, read).effects[k].target != OriginalPath(path, g)
  {
    var r := Sweep(path, entries, read);
    SweepWritesOnlyDerived(path, entries, read);
    forall k | 0 <= k < |r.effects|
      ensures r.effects[k].Saved? && r.effects[k].target != OriginalPath(path, g)
    {
      assert DerivedFromSome(path, entries, r.effects[k]);
      var e :| e in entries && Eligible(e) && DerivedFrom(path, r.effects[k], e.name);
      DerivedNeverHitsAnother(path, e.name, g);
    }
  }

  /** A picture upload derives exactly what reprocess() would derive for the
      stored file on its own. */
  lemma PictureDerivesLikeReprocess(
    file: Uploads.UploadedFile, path: string, id: int, read: ImageReader, extension: string)
    requires Uploads.PictureAcceptable(file)
    requires extension != "gitignore"
    ensures var name := Uploads.StoredPictureName(id, file.clientExtension);
      Uploads.Picture(file, path, id, true, read).effects[1..]
        == Sweep(path, [Entry(name, false, false, extension)], read).effects
  {
    var name := Uploads.StoredPictureName(id, file.clientExtension);
    var entries := [Entry(name, false, false, extension)];
    assert entries[1..] == [];
  }
}
