/** The catalog's undo/redo journal. */
module Journal {
  import opened Base

  datatype Phase = Prepared | Committed
  /** A staged image is named by its index under `before/` or `after/`. */
  datatype ManifestChange = ManifestChange(target: string, before: Option<nat>, after: Option<nat>)
  datatype Manifest = Manifest(phase: Phase, changes: seq<ManifestChange>)
  datatype JournalDir<V> = JournalDir(before: map<nat, V>, after: map<nat, V>, manifest: Option<Manifest>)
  type Files<V> = map<string, V>
  datatype Disk<V> = Disk(files: Files<V>, journal: Option<JournalDir<V>>)

  datatype FileChange<V> = FileChange(target: string, before: Option<V>, after: Option<V>)
  /** An image to put at a target; `None` removes the file. */
  type Image<V> = (string, Option<V>)

  function Get<K, V>(m: map<K, V>, k: K): Option<V>
  {
    if k in m then Some(m[k]) else None
  }

  function Put<V>(files: Files<V>, name: string, image: Option<V>): Files<V>
  {
    if image.Some? then files[name := image.value] else files - {name}
  }

  ghost predicate Targets<V>(images: seq<Image<V>>, name: string)
  {
    exists k :: 0 <= k < |images| && images[k].0 == name
  }

  ghost predicate Distinct<V>(images: seq<Image<V>>)
  {
    forall i, j :: 0 <= i < j < |images| ==> images[i].0 != images[j].0
  }

  /** `files` with every image put in place. */
  function Overlay<V>(files: Files<V>, images: seq<Image<V>>): Files<V>
    decreases |images|
  {
    if images == [] then files else Overlay(Put(files, images[0].0, images[0].1), images[1..])
  }

  lemma {:induction false} OverlayAt<V>(files: Files<V>, images: seq<Image<V>>, name: string)
    requires Distinct(images)
    ensures !Targets(images, name) ==> Get(Overlay(files, images), name) == Get(files, name)
    ensures forall k :: 0 <= k < |images| && images[k].0 == name ==> Get(Overlay(files, images), name) == images[k].1
    decreases |images|
  {
    if images != [] {
      OverlayAt(Put(files, images[0].0, images[0].1), images[1..], name);
      assert forall k :: 0 <= k < |images| - 1 ==> images[1..][k] == images[k + 1];
      if Targets(images[1..], name) {
        var k :| 0 <= k < |images| - 1 && images[1..][k].0 == name;
        assert images[k + 1].0 == name;
      }
    }
  }

  lemma SameMaps<V>(a: Files<V>, b: Files<V>)
    requires forall n :: Get(a, n) == Get(b, n)
    ensures a == b
  {
    forall n ensures (n in a <==> n in b) && (n in a ==> a[n] == b[n]) {
      assert Get(a, n) == Get(b, n);
    }
  }

  /** The two disks differ at most at the targets. */
  ghost predicate AgreeOutside<V>(a: Files<V>, b: Files<V>, images: seq<Image<V>>)
  {
    forall n :: Targets(images, n) || Get(a, n) == Get(b, n)
  }

  /** An overlay depends only on the files it does not cover. */
  lemma OverlayIgnoresTargets<V>(a: Files<V>, b: Files<V>, images: seq<Image<V>>)
    requires Distinct(images) && AgreeOutside(a, b, images)
    ensures Overlay(a, images) == Overlay(b, images)
  {
    forall n ensures Get(Overlay(a, images), n) == Get(Overlay(b, images), n) {
      OverlayAt(a, images, n);
      OverlayAt(b, images, n);
    }
    SameMaps(Overlay(a, images), Overlay(b, images));
  }

  function Backwards<V>(images: seq<Image<V>>): (r: seq<Image<V>>)
    ensures |r| == |images|
    ensures forall i :: 0 <= i < |images| ==> r[i] == images[|images| - 1 - i] && r[|images| - 1 - i] == images[i]
  {
    seq(|images|, i requires 0 <= i < |images| => images[|images| - 1 - i])
  }

  /** Images of distinct targets may be put in place in either order. */
  lemma OverlayBackwards<V>(files: Files<V>, images: seq<Image<V>>)
    requires Distinct(images)
    ensures Distinct(Backwards(images)) && Overlay(files, Backwards(images)) == Overlay(files, images)
  {
    var back := Backwards(images);
    assert Distinct(back) by {
      forall i, j | 0 <= i < j < |back| ensures back[i].0 != back[j].0 {
        assert images[|images| - 1 - j].0 != images[|images| - 1 - i].0;
      }
    }
    forall n ensures Get(Overlay(files, back), n) == Get(Overlay(files, images), n) {
      OverlayAt(files, images, n);
      OverlayAt(files, back, n);
      if Targets(images, n) {
        var k :| 0 <= k < |images| && images[k].0 == n;
        assert back[|images| - 1 - k].0 == n;
      }
    }
    SameMaps(Overlay(files, back), Overlay(files, images));
  }

  /** Whether each image is what its target holds already. */
  ghost predicate Current<V>(files: Files<V>, images: seq<Image<V>>)
  {
    forall k :: 0 <= k < |images| ==> Get(files, images[k].0) == images[k].1
  }

  lemma OverlayIsIdentity<V>(files: Files<V>, images: seq<Image<V>>)
    requires Distinct(images)
    ensures Overlay(files, images) == files <==> Current(files, images)
  {
    forall n ensures Current(files, images) ==> Get(Overlay(files, images), n) == Get(files, n) {
      OverlayAt(files, images, n);
    }
    if Current(files, images) {
      SameMaps(Overlay(files, images), files);
    }
    forall k | 0 <= k < |images| ensures Get(Overlay(files, images), images[k].0) == images[k].1 {
      OverlayAt(files, images, images[k].0);
    }
  }

  // ---- What recovery makes of a disk ----

  function Staged<V>(staged: map<nat, V>, name: Option<nat>): Option<V>
  {
    if name.Some? then Get(staged, name.value) else None
  }

  function UndoImages<V>(j: JournalDir<V>, changes: seq<ManifestChange>): (r: seq<Image<V>>)
    ensures |r| == |changes|
  {
    seq(|changes|, i requires 0 <= i < |changes| => (changes[i].target, Staged(j.before, changes[i].before)))
  }

  function RedoImages<V>(j: JournalDir<V>, changes: seq<ManifestChange>): (r: seq<Image<V>>)
    ensures |r| == |changes|
  {
    seq(|changes|, i requires 0 <= i < |changes| => (changes[i].target, Staged(j.after, changes[i].after)))
  }

  /** Every staged image that the manifest names is there. */
  predicate Complete<V>(j: JournalDir<V>, m: Manifest)
  {
    forall i :: 0 <= i < |m.changes| ==>
      (m.changes[i].before.Some? ==> m.changes[i].before.value in j.before) &&
      (m.changes[i].after.Some? ==> m.changes[i].after.value in j.after)
  }

  /** The images that recovery puts in place. */
  function Plan<V>(d: Disk<V>): seq<Image<V>>
  {
    if d.journal.None? || d.journal.value.manifest.None? then []
    else
      var j, m := d.journal.value, d.journal.value.manifest.value;
      if m.phase.Prepared? then UndoImages(j, m.changes) else RedoImages(j, m.changes)
  }

  ghost predicate Sound<V>(d: Disk<V>)
  {
    Distinct(Plan(d)) &&
    (d.journal.Some? && d.journal.value.manifest.Some? ==> Complete(d.journal.value, d.journal.value.manifest.value))
  }

  /** The files as they will be once a recovery completes. */
  function Recovered<V>(d: Disk<V>): Files<V>
  {
    Overlay(d.files, Plan(d))
  }

  function BeforeImages<V>(changes: seq<FileChange<V>>): (r: seq<Image<V>>)
    ensures |r| == |changes|
  {
    seq(|changes|, i requires 0 <= i < |changes| => (changes[i].target, changes[i].before))
  }

  function AfterImages<V>(changes: seq<FileChange<V>>): (r: seq<Image<V>>)
    ensures |r| == |changes|
  {
    seq(|changes|, i requires 0 <= i < |changes| => (changes[i].target, changes[i].after))
  }

  /** The `k`-th change is staged under its index, and the manifest entry says so. */
  ghost predicate StagedAs<V>(j: JournalDir<V>, m: ManifestChange, c: FileChange<V>, k: nat)
  {
    m.target == c.target &&
    m.before == (if c.before.Some? then Some(k) else None) &&
    m.after == (if c.after.Some? then Some(k) else None) &&
    (c.before.Some? ==> Get(j.before, k) == c.before) &&
    (c.after.Some? ==> Get(j.after, k) == c.after)
  }

  ghost predicate AllStaged<V>(j: JournalDir<V>, staged: seq<ManifestChange>, changes: seq<FileChange<V>>)
  {
    |staged| == |changes| && forall k: nat :: k < |changes| ==> StagedAs(j, staged[k], changes[k], k)
  }

  lemma StagedImages<V>(j: JournalDir<V>, staged: seq<ManifestChange>, changes: seq<FileChange<V>>)
    requires AllStaged(j, staged, changes)
    ensures UndoImages(j, staged) == BeforeImages(changes) && RedoImages(j, staged) == AfterImages(changes)
    ensures forall phase :: Complete(j, Manifest(phase, staged))
  {
    forall k: nat | k < |changes|
      ensures UndoImages(j, staged)[k] == BeforeImages(changes)[k]
      ensures RedoImages(j, staged)[k] == AfterImages(changes)[k]
    {
      assert StagedAs(j, staged[k], changes[k], k);
    }
    forall k: nat | k < |staged|
      ensures staged[k].before.Some? ==> staged[k].before.value in j.before
      ensures staged[k].after.Some? ==> staged[k].after.value in j.after
    {
      assert StagedAs(j, staged[k], changes[k], k);
    }
  }

  lemma SameTargets<V>(changes: seq<FileChange<V>>)
    ensures Distinct(BeforeImages(changes)) == Distinct(AfterImages(changes))
    ensures forall n :: Targets(BeforeImages(changes), n) <==> Targets(AfterImages(changes), n)
  {
    assert forall k :: 0 <= k < |changes| ==> BeforeImages(changes)[k].0 == AfterImages(changes)[k].0;
  }

  method HasDuplicate<V>(changes: seq<FileChange<V>>) returns (duplicate: bool)
    ensures duplicate <==> !Distinct(AfterImages(changes))
  {
    var targets: set<string> := {};
    for i := 0 to |changes|
      invariant targets == set k | 0 <= k < i :: changes[k].target
      invariant forall j, k :: 0 <= j < k < i ==> changes[j].target != changes[k].target
    {
      if changes[i].target in targets {
        ghost var k :| 0 <= k < i && changes[k].target == changes[i].target;
        assert AfterImages(changes)[k].0 == AfterImages(changes)[i].0;
        return true;
      }
      targets := targets + {changes[i].target};
    }
    return false;
  }

  /** A committed manifest became durable after those of `before`. */
  ghost predicate CommittedSince(before: seq<Manifest>, now: seq<Manifest>)
  {
    exists k :: |before| <= k < |now| && now[k].phase.Committed?
  }

  datatype Outcome = Done | Crashed | Refused

  class Catalog<V(0)> {
    var disk: Disk<V>
    /** Every manifest that has become durable, in order. */
    ghost var written: seq<Manifest>

    constructor (files: Files<V>)
      ensures disk == Disk(files, None) && written == []
    {
      disk, written := Disk(files, None), [];
    }

    /** Puts images in place one by one; a crash can come after any of them. */
    method ApplyImages(images: seq<Image<V>>) returns (outcome: Outcome)
      modifies this`disk
      ensures disk.journal == old(disk).journal && !outcome.Refused?
      ensures AgreeOutside(disk.files, old(disk).files, images)
      ensures outcome.Done? ==> disk.files == Overlay(old(disk).files, images)
    {
      ghost var base := disk.files;
      var i := 0;
      while i < |images|
        invariant 0 <= i <= |images| && disk.journal == old(disk).journal
        invariant Overlay(disk.files, images[i..]) == Overlay(base, images)
        invariant AgreeOutside(disk.files, base, images)
      {
        assert images[i..][1..] == images[i + 1..] && Targets(images, images[i].0);
        disk := disk.(files := Put(disk.files, images[i].0, images[i].1));
        if * { return Crashed; }
        i := i + 1;
      }
      return Done;
    }

    /** Removes the staging directory, in any order of its files, after the manifest. */
    method RemoveJournal() returns (outcome: Outcome)
      requires disk.journal.Some?
      modifies this`disk
      ensures disk.files == old(disk).files && !outcome.Refused?
      ensures outcome.Done? ==> disk.journal.None?
      ensures disk == old(disk) || disk.journal.None? || disk.journal.value.manifest.None?
    {
      if * { return Crashed; }
      disk := disk.(journal := Some(disk.journal.value.(manifest := None)));
      if * {
        var before: map<nat, V>, after: map<nat, V> := *, *;
        disk := disk.(journal := Some(JournalDir(before, after, None)));
        return Crashed;
      }
      disk := disk.(journal := None);
      if * { return Crashed; }
      return Done;
    }

    /** Rolls a prepared transaction back or a committed one forward, and drops the journal. */
    method RecoverLocked() returns (outcome: Outcome)
      requires Sound(disk)
      modifies this`disk
      ensures Sound(disk) && Recovered(disk) == old(Recovered(disk)) && !outcome.Refused?
      ensures outcome.Done? ==> disk == Disk(old(Recovered(disk)), None)
    {
      if disk.journal.None? {
        return Done;
      }
      var images := Plan(disk);
      if disk.journal.value.manifest.Some? && disk.journal.value.manifest.value.phase.Prepared? {
        images := Backwards(images);
        OverlayBackwards(disk.files, Plan(disk));
      }
      ghost var goal := Recovered(disk);
      outcome := ApplyImages(images);
      assert Plan(disk) == Plan(old(disk));
      OverlayIgnoresTargets(disk.files, old(disk).files, images);
      OverlayBackwards(disk.files, Plan(disk));
      assert Recovered(disk) == goal;
      if outcome.Done? {
        outcome := RemoveJournal();
      }
    }

    /** Writes one staged image; a crash can leave any bytes under its name. */
    method WriteStaged(undo: bool, name: nat, image: Option<V>) returns (outcome: Outcome)
      requires disk.journal.Some?
      modifies this`disk
      ensures disk.files == old(disk).files && !outcome.Refused?
      ensures disk.journal.Some? && disk.journal.value.manifest == old(disk).journal.value.manifest
      ensures outcome.Done? && image.Some? ==>
        var was := old(disk).journal.value;
        disk.journal.value == if undo then was.(before := was.before[name := image.value])
                              else was.(after := was.after[name := image.value])
      ensures outcome.Done? && image.None? ==> disk == old(disk)
    {
      if image.None? {
        return Done;
      }
      var bytes := image.value;
      if * {
        bytes := *;
        outcome := Crashed;
      } else {
        outcome := Done;
      }
      var was := disk.journal.value;
      disk := disk.(journal := Some(
        if undo then was.(before := was.before[name := bytes]) else was.(after := was.after[name := bytes])));
    }

    /** Stages both images of every change; no manifest names them yet. */
    method Stage(changes: seq<FileChange<V>>) returns (outcome: Outcome, staged: seq<ManifestChange>)
      requires disk.journal.Some? && disk.journal.value.manifest.None?
      modifies this`disk
      ensures disk.files == old(disk).files && !outcome.Refused?
      ensures disk.journal.Some? && disk.journal.value.manifest.None?
      ensures outcome.Done? ==> AllStaged(disk.journal.value, staged, changes)
    {
      staged, outcome := [], Done;
      for i := 0 to |changes|
        invariant |staged| == i && disk.files == old(disk).files
        invariant disk.journal.Some? && disk.journal.value.manifest.None?
        invariant forall k: nat :: k < i ==> StagedAs(disk.journal.value, staged[k], changes[k], k)
      {
        var c := changes[i];
        outcome := WriteStaged(true, i, c.before);
        if outcome.Crashed? { return; }
        outcome := WriteStaged(false, i, c.after);
        if outcome.Crashed? { return; }
        staged := staged + [ManifestChange(c.target,
                                           if c.before.Some? then Some(i) else None,
                                           if c.after.Some? then Some(i) else None)];
      }
      outcome := Done;
    }

    /** Writes the manifest by renaming over the last one, so a crash leaves the one or the other. */
    method WriteManifest(manifest: Manifest) returns (outcome: Outcome)
      requires disk.journal.Some?
      modifies this
      ensures !outcome.Refused?
      ensures disk == old(disk) && written == old(written) ==> outcome.Crashed?
      ensures (disk == old(disk) && written == old(written)) ||
              (disk == old(disk).(journal := Some(old(disk).journal.value.(manifest := Some(manifest)))) &&
               written == old(written) + [manifest])
    {
      if * { return Crashed; }
      disk := disk.(journal := Some(disk.journal.value.(manifest := Some(manifest))));
      written := written + [manifest];
      if * { return Crashed; }
      return Done;
    }

    /** From the prepared manifest over the target files to the committed manifest. */
    method Decide(changes: seq<FileChange<V>>, staged: seq<ManifestChange>)
      returns (outcome: Outcome, ghost decided: bool)
      requires disk.journal.Some? && disk.journal.value.manifest.None?
      requires AllStaged(disk.journal.value, staged, changes) && Distinct(AfterImages(changes))
      modifies this
      ensures Sound(disk) && disk.journal.Some? && !outcome.Refused?
      ensures outcome.Done? ==> decided && disk.files == Overlay(old(disk).files, AfterImages(changes))
      ensures decided ==> Recovered(disk) == Overlay(old(disk).files, AfterImages(changes))
      ensures !decided ==>
        Recovered(disk) == if written == old(written) then old(disk).files
                           else Overlay(old(disk).files, BeforeImages(changes))
      ensures decided <==> disk.journal.value.manifest == Some(Manifest(Committed, staged))
      ensures written == old(written) + (if decided then [Manifest(Prepared, staged), Manifest(Committed, staged)]
                                         else if disk.journal.value.manifest.Some? then [Manifest(Prepared, staged)]
                                         else [])
    {
      ghost var base := disk.files;
      decided := false;
      SameTargets(changes);
      StagedImages(disk.journal.value, staged, changes);
      outcome := WriteManifest(Manifest(Prepared, staged));
      StagedImages(disk.journal.value, staged, changes);
      if outcome.Crashed? { return; }
      outcome := ApplyImages(RedoImages(disk.journal.value, staged));
      OverlayIgnoresTargets(disk.files, base, BeforeImages(changes));
      if outcome.Crashed? { return; }
      outcome := WriteManifest(Manifest(Committed, staged));
      StagedImages(disk.journal.value, staged, changes);
      OverlayIgnoresTargets(disk.files, base, AfterImages(changes));
      decided := disk.journal.value.manifest.value.phase.Committed?;
    }

    /** Commits a set of file changes.
        `decided` says whether the committed manifest became durable. */
    method CommitFiles(changes: seq<FileChange<V>>) returns (outcome: Outcome, ghost decided: bool)
      requires Sound(disk)
      modifies this
      ensures Sound(disk)
      ensures outcome.Refused? <==> changes != [] && (old(disk).journal.Some? || !Distinct(AfterImages(changes)))
      ensures outcome.Refused? ==> disk == old(disk) && written == old(written)
      ensures outcome.Done? ==> disk.files == Overlay(old(disk).files, AfterImages(changes))
      ensures outcome.Done? ==> decided
      ensures outcome.Crashed? ==> old(disk).journal.None?
      ensures !outcome.Refused? && changes != [] && decided ==>
        Recovered(disk) == Overlay(old(disk).files, AfterImages(changes))
      ensures !outcome.Refused? && !decided ==>
        Recovered(disk) == if written == old(written) then old(disk).files
                           else Overlay(old(disk).files, BeforeImages(changes))
      ensures changes != [] ==> (decided <==> CommittedSince(old(written), written))
    {
      decided := changes == [];
      if changes == [] {
        return Done, decided;
      }
      if disk.journal.Some? {
        return Refused, decided;
      }
      var duplicate := HasDuplicate(changes);
      if duplicate {
        return Refused, decided;
      }
      disk := disk.(journal := Some(JournalDir(map[], map[], None)));
      if * { return Crashed, decided; }
      var staged;
      outcome, staged := Stage(changes);
      if outcome.Crashed? { return; }
      ghost var was := written;
      outcome, decided := Decide(changes, staged);
      assert decided ==> written[|was| + 1].phase.Committed?;
      if outcome.Done? {
        var _ := RemoveJournal();
        if * { return Crashed, true; }
      }
    }
  }
}
