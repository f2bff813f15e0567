/** crates/ostrom-cli/src/policy_version.rs, lines 121-468 and 520-593: composed policies are stored
    under their digest, and two pointers name the current and the previous one. Each change of
    the file system is one atomic step, and the process may die between any two. */
module PolicyVersion {
  import opened Wrappers
  import Sha256

  // What the policy library parses; its structure does not matter here.
  datatype Manifest = Manifest(contents: string)

  // The policy library: parsing, the canonical form and the signed digest.
  datatype Library = Library(
    parse: string -> Option<Manifest>,
    render: Manifest -> Option<string>,
    digestOf: Manifest -> Option<string>)

  predicate ValidDigest(value: string) {
    |value| == 64 && forall c :: c in value ==> '0' <= c <= '9' || 'a' <= c <= 'f'
  }

  datatype Inspection = Pass | Drifted | Inconclusive(cause: string)

  // An entry of the versions directory: a directory with its manifest file, or something else.
  datatype Entry = Directory(file: Option<string>) | NotDirectory

  // The manifest file of a version against the name of the version.
  function InspectVersion(lib: Library, entry: Entry, expected: string): (r: Inspection)
    ensures r == Pass <==>
            exists m :: Canonical(lib, entry, m) && lib.digestOf(m) == Some(expected)
  {
    match entry
    case NotDirectory => Inconclusive("manifest_unreadable")
    case Directory(None) => Inconclusive("manifest_missing")
    case Directory(Some(source)) =>
      match lib.parse(source)
      case None => Drifted
      case Some(manifest) =>
        var observed, canonical := lib.digestOf(manifest), lib.render(manifest);
        if observed.None? then Inconclusive("digest_unavailable")
        else if canonical.None? then Inconclusive("canonical_form_unavailable")
        else if observed.value != expected || source != canonical.value then Drifted
        else
          assert Canonical(lib, entry, manifest);
          Pass
  }

  // The entry holds the manifest in its canonical form.
  predicate Canonical(lib: Library, entry: Entry, m: Manifest) {
    entry.Directory? && entry.file.Some? && lib.parse(entry.file.value) == Some(m) && lib.render(m) == entry.file
  }

  predicate Clean(lib: Library, entry: Entry, digest: string) {
    ValidDigest(digest) && InspectVersion(lib, entry, digest) == Pass
  }

  // A digest is printed as 64 lower-case hexadecimal digits.
  ghost predicate PrintsDigests(lib: Library) {
    forall m :: lib.digestOf(m).Some? ==> ValidDigest(lib.digestOf(m).value)
  }

  // Parsing the canonical form of the manifest gives it back.
  predicate RoundTrips(lib: Library, m: Manifest) {
    lib.render(m).Some? && lib.parse(lib.render(m).value) == Some(m)
  }

  // A pointer is a link; only a link to a version directory is followed.
  datatype Target = Version(digest: string) | Elsewhere

  datatype Disk = Disk(
    versions: map<string, Entry>,
    staging: Option<Option<string>>,
    current: Option<Target>,
    previous: Option<Target>)

  datatype PointerRead = Found(digest: string) | Missing | Invalid | VersionMissing | VersionNotDirectory

  function ReadPointer(versions: map<string, Entry>, link: Option<Target>): (r: PointerRead)
    ensures r.Found? <==>
            link.Some? && link.value.Version? && ValidDigest(link.value.digest)
            && link.value.digest in versions && versions[link.value.digest].Directory?
    ensures r.Found? ==> link == Some(Version(r.digest))
    ensures r.Missing? <==> link.None?
  {
    match link
    case None => Missing
    case Some(Elsewhere) => Invalid
    case Some(Version(digest)) =>
      if !ValidDigest(digest) then Invalid
      else if digest !in versions then VersionMissing
      else if versions[digest].NotDirectory? then VersionNotDirectory
      else Found(digest)
  }

  // ---- One atomic step, on any disk ----

  // Installed versions stay as they are.
  predicate VersionsKept(before: Disk, after: Disk) {
    forall d :: d in before.versions ==> d in after.versions && after.versions[d] == before.versions[d]
  }

  // This link leads to a version that passes inspection.
  predicate PointsToClean(lib: Library, disk: Disk, link: Option<Target>) {
    && link.Some? && link.value.Version? && link.value.digest in disk.versions
    && Clean(lib, disk.versions[link.value.digest], link.value.digest)
  }

  /** What a single step may do, whatever the disk held: it keeps every version, adds only one that passes
      inspection, moves `current` only to one that does, and `previous` only to what is current. */
  predicate SafeStep(lib: Library, before: Disk, after: Disk) {
    && VersionsKept(before, after)
    && (forall d :: d in after.versions && d !in before.versions ==> Clean(lib, after.versions[d], d))
    && (after.current == before.current || PointsToClean(lib, after, after.current))
    && (after.previous == before.previous ||
        (after.previous == before.current && ReadPointer(before.versions, before.current).Found?))
  }

  // The history goes on from `past` by safe steps alone.
  ghost predicate Continues(lib: Library, past: seq<Disk>, history: seq<Disk>)
    requires past != []
  {
    && past <= history
    && forall i :: |past| <= i < |history| ==> SafeStep(lib, history[i - 1], history[i])
  }

  lemma ContinuesOn(lib: Library, past: seq<Disk>, middle: seq<Disk>, history: seq<Disk>)
    requires past != [] && Continues(lib, past, middle) && Continues(lib, middle, history)
    ensures Continues(lib, past, history)
  {
    forall i | |past| <= i < |history|
      ensures SafeStep(lib, history[i - 1], history[i])
    {
      if i < |middle| {
        assert middle[i - 1] == history[i - 1] && middle[i] == history[i];
      }
    }
  }

  /** Whatever the disk held before, at every later instant each version it held is unchanged, and `current`
      is what it was or names a version that passes inspection. */
  lemma {:induction false} NeverMovesToDrifted(lib: Library, past: seq<Disk>, history: seq<Disk>, i: nat)
    requires past != [] && Continues(lib, past, history) && |past| <= i < |history|
    ensures var start := past[|past| - 1];
            && VersionsKept(start, history[i])
            && (history[i].current == start.current || PointsToClean(lib, history[i], history[i].current))
    decreases i
  {
    var start := past[|past| - 1];
    assert SafeStep(lib, history[i - 1], history[i]);
    if i == |past| {
      assert history[i - 1] == start;
    } else {
      NeverMovesToDrifted(lib, past, history, i - 1);
    }
  }

  // ---- What holds at every instant of a store that only the program has changed ----

  // Every installed version hashes to the name of its directory.
  predicate VersionsClean(lib: Library, disk: Disk) {
    forall d :: d in disk.versions ==> Clean(lib, disk.versions[d], d)
  }

  predicate PointersFound(disk: Disk) {
    && (disk.current.Some? ==> ReadPointer(disk.versions, disk.current).Found?)
    && (disk.previous.Some? ==> ReadPointer(disk.versions, disk.previous).Found?)
    && (disk.previous.Some? ==> disk.current.Some?)
  }

  // What `previous` names was current at some earlier instant.
  predicate PreviousWasCurrent(history: seq<Disk>, i: nat)
    requires i < |history|
  {
    history[i].previous.Some? ==> exists j :: 0 <= j < i && history[j].current == history[i].previous
  }

  ghost predicate SafeHistory(lib: Library, history: seq<Disk>) {
    && (forall i :: 0 <= i < |history| ==>
          VersionsClean(lib, history[i]) && PointersFound(history[i]) && PreviousWasCurrent(history, i))
    && (forall i, j :: 0 <= i < j < |history| ==> VersionsKept(history[i], history[j]))
  }

  lemma StepKeepsDiskSafe(lib: Library, before: Disk, after: Disk)
    requires VersionsClean(lib, before) && PointersFound(before) && SafeStep(lib, before, after)
    ensures VersionsClean(lib, after) && PointersFound(after)
  {
    forall d | d in after.versions
      ensures Clean(lib, after.versions[d], d)
    {
      assert d in before.versions ==> after.versions[d] == before.versions[d];
    }
  }

  // A safe history stays safe by a safe step.
  lemma StepKeepsHistorySafe(lib: Library, history: seq<Disk>, next: Disk)
    requires history != [] && SafeHistory(lib, history) && SafeStep(lib, history[|history| - 1], next)
    ensures SafeHistory(lib, history + [next])
  {
    var after := history + [next];
    var last := |history| - 1;
    assert PreviousWasCurrent(history, last);
    StepKeepsDiskSafe(lib, history[last], next);
    forall i | 0 <= i < |after|
      ensures VersionsClean(lib, after[i]) && PointersFound(after[i]) && PreviousWasCurrent(after, i)
    {
      if i < |history| {
        assert PreviousWasCurrent(history, i);
        if history[i].previous.Some? {
          var j :| 0 <= j < i && history[j].current == history[i].previous;
          assert after[j].current == after[i].previous;
        }
      } else if next.previous.Some? {
        if next.previous == history[last].current {
          assert after[last].current == after[i].previous;
        } else {
          var j :| 0 <= j < last && history[j].current == history[last].previous;
          assert after[j].current == after[i].previous;
        }
      }
    }
    forall i, j | 0 <= i < j < |after|
      ensures VersionsKept(after[i], after[j])
    {
      if j == |history| && i < last {
        assert VersionsKept(history[i], history[last]);
      }
    }
  }

  /** At every instant of a store that started safe, the installed versions are clean and unchanged, both
      pointers name one, and `previous` was current before. */
  lemma {:induction false} SafeHistoryContinues(lib: Library, past: seq<Disk>, history: seq<Disk>)
    requires past != [] && SafeHistory(lib, past) && Continues(lib, past, history)
    ensures SafeHistory(lib, history)
    decreases |history|
  {
    if |history| > |past| {
      var n := |history| - 1;
      assert history == history[..n] + [history[n]];
      SafeHistoryContinues(lib, past, history[..n]);
      StepKeepsHistorySafe(lib, history[..n], history[n]);
    } else {
      assert history == past;
    }
  }

  lemma KeepSafe(lib: Library, past: seq<Disk>, history: seq<Disk>)
    requires past != [] && Continues(lib, past, history)
    ensures SafeHistory(lib, past) ==> SafeHistory(lib, history)
  {
    if SafeHistory(lib, past) {
      SafeHistoryContinues(lib, past, history);
    }
  }

  // ---- The store ----

  datatype Outcome =
    | Installed
    | AlreadyCurrent
    | RolledBack(from: string, to: string)
    | Refused(cause: string)
    | Interrupted

  // The versions after a write of `reached` under this digest, if there was none before.
  function WithVersion(versions: map<string, Entry>, digest: string, reached: Option<string>): map<string, Entry> {
    if digest in versions then versions else versions[digest := Directory(reached)]
  }

  predicate Usable(read: PointerRead) {
    read.Found? || read.Missing?
  }

  // The manifest has no digest or text, its version fails inspection, or the current pointer is bad.
  predicate ComposeRefused(lib: Library, disk: Disk, manifest: Manifest, reached: Option<string>) {
    || lib.digestOf(manifest).None? || lib.render(manifest).None?
    || var digest := lib.digestOf(manifest).value;
       var versions := WithVersion(disk.versions, digest, reached);
       InspectVersion(lib, versions[digest], digest) != Pass || !Usable(ReadPointer(versions, disk.current))
  }

  // One of the pointers is missing or bad, or the previous version fails inspection.
  predicate RollbackRefused(lib: Library, disk: Disk) {
    || !ReadPointer(disk.versions, disk.current).Found?
    || !ReadPointer(disk.versions, disk.previous).Found?
    || !PointsToClean(lib, disk, disk.previous)
  }

  // On the way to a new version: the pointers are the old ones, or `previous` has become the old current one, and
  // then `current` may have become the new version.
  predicate Switching(before: Disk, digest: string, at: Disk) {
    && (at.current == before.current || at.current == Some(Version(digest)))
    && (at.previous == before.previous || at.previous == before.current)
    && (at.current != before.current && before.current.Some? ==> at.previous == before.current)
  }

  class Store {
    const lib: Library
    var versions: map<string, Entry>
    var staging: Option<Option<string>>
    var current: Option<Target>
    var previous: Option<Target>
    // Every state of the disk so far, one for each atomic step.
    ghost var history: seq<Disk>

    function Now(): Disk
      reads this
    {
      Disk(versions, staging, current, previous)
    }

    // The history is kept; nothing is said of what the disk holds.
    ghost predicate Recorded()
      reads this
    {
      PrintsDigests(lib) && history != [] && history[|history| - 1] == Now()
    }

    // Nothing but the program has changed the disk.
    ghost predicate Valid()
      reads this
    {
      Recorded() && SafeHistory(lib, history)
    }

    // Opens the store on whatever is there.
    constructor (lib: Library, found: Disk)
      requires PrintsDigests(lib)
      ensures this.lib == lib && Recorded() && Now() == found && history == [found]
      ensures found.versions == map[] && found.current.None? && found.previous.None? ==> Valid()
    {
      this.lib := lib;
      versions, staging, current, previous := found.versions, found.staging, found.current, found.previous;
      history := [found];
    }

    method Stage(file: Option<string>)
      requires Recorded()
      modifies this`staging, this`history
      ensures Recorded() && staging == Some(file)
      ensures history == old(history) + [Now()] && Continues(lib, old(history), history)
      ensures old(Valid()) ==> Valid()
    {
      ghost var before := history;
      staging := Some(file);
      history := history + [Now()];
      KeepSafe(lib, before, history);
    }

    // Renames the staging directory to its digest.
    method InstallStaging(digest: string)
      requires Recorded() && staging.Some? && digest !in versions && Clean(lib, Directory(staging.value), digest)
      modifies this`staging, this`versions, this`history
      ensures Recorded() && staging == None && versions == old(versions)[digest := Directory(old(staging).value)]
      ensures history == old(history) + [Now()] && Continues(lib, old(history), history)
      ensures old(Valid()) ==> Valid()
    {
      ghost var before := history;
      versions, staging := versions[digest := Directory(staging.value)], None;
      history := history + [Now()];
      KeepSafe(lib, before, history);
    }

    // Replaces one pointer by a rename.
    method SetPrevious()
      requires Recorded() && ReadPointer(versions, current).Found?
      modifies this`previous, this`history
      ensures Recorded() && previous == current
      ensures history == old(history) + [Now()] && Continues(lib, old(history), history)
      ensures old(Valid()) ==> Valid()
    {
      ghost var before := history;
      previous := current;
      history := history + [Now()];
      KeepSafe(lib, before, history);
    }

    method SetCurrent(digest: string)
      requires Recorded() && digest in versions && Clean(lib, versions[digest], digest)
      modifies this`current, this`history
      ensures Recorded() && current == Some(Version(digest))
      ensures history == old(history) + [Now()] && Continues(lib, old(history), history)
      ensures old(Valid()) ==> Valid()
    {
      ghost var before := history;
      current := Some(Version(digest));
      history := history + [Now()];
      KeepSafe(lib, before, history);
    }

    /** Writes the version under its digest, unless it is there already. `reached` is what the write
        left on the disk, and `fuel` the number of atomic steps before the process dies. */
    method MaterializeVersion(digest: string, reached: Option<string>, fuel0: nat) returns (refused: bool, interrupted: bool, fuel: nat)
      requires Recorded() && ValidDigest(digest)
      modifies this`staging, this`versions, this`history
      ensures Recorded() && Continues(lib, old(history), history)
      ensures old(Valid()) ==> Valid()
      ensures forall i :: |old(history)| <= i < |history| ==>
        history[i].current == current && history[i].previous == previous
      ensures !(refused && interrupted)
      ensures !interrupted ==>
        (refused <==> InspectVersion(lib, WithVersion(old(versions), digest, reached)[digest], digest) != Pass)
      ensures !refused && !interrupted ==> versions == WithVersion(old(versions), digest, reached)
      ensures refused || interrupted ==> versions == old(versions)
      ensures digest in old(versions) ==> !interrupted && history == old(history)
      ensures fuel <= fuel0 && (interrupted ==> fuel0 < 3) && fuel0 <= fuel + 3
    {
      refused, interrupted, fuel := false, false, fuel0;
      if digest in versions {
        refused := InspectVersion(lib, versions[digest], digest) != Pass;
        return;
      }
      if fuel == 0 {
        interrupted := true;
        return;
      }
      fuel := fuel - 1;
      Stage(None);
      if fuel == 0 {
        interrupted := true;
        return;
      }
      fuel := fuel - 1;
      ghost var middle := history;
      Stage(reached);
      ContinuesOn(lib, old(history), middle, history);
      if InspectVersion(lib, Directory(staging.value), digest) != Pass {
        refused := true;
        return;
      }
      if fuel == 0 {
        interrupted := true;
        return;
      }
      fuel := fuel - 1;
      middle := history;
      InstallStaging(digest);
      ContinuesOn(lib, old(history), middle, history);
    }

    // Makes an installed version the current one, unless it is already.
    method PointTo(digest: string, fuel0: nat) returns (outcome: Outcome)
      requires Recorded() && digest in versions && Clean(lib, versions[digest], digest)
      modifies this`current, this`previous, this`history
      ensures Recorded() && Continues(lib, old(history), history)
      ensures old(Valid()) ==> Valid()
      ensures forall i :: |old(history)| <= i < |history| ==>
        Switching(old(Now()), digest, history[i])
      ensures outcome.Refused? <==> !Usable(ReadPointer(versions, old(current)))
      ensures outcome.Refused? || outcome.AlreadyCurrent? ==> history == old(history) && Now() == old(Now())
      ensures outcome.AlreadyCurrent? <==> old(current) == Some(Version(digest)) && !outcome.Refused?
      ensures outcome.Installed? ==> current == Some(Version(digest))
      ensures outcome.Installed? ==> previous == if old(current).Some? then old(current) else old(previous)
      ensures !outcome.RolledBack? && (fuel0 >= 2 ==> !outcome.Interrupted?)
    {
      var fuel := fuel0;
      var read := ReadPointer(versions, current);
      if !Usable(read) {
        return Refused("invalid_pointer");
      }
      if read == Found(digest) {
        return AlreadyCurrent;
      }
      if read.Found? {
        if fuel == 0 {
          return Interrupted;
        }
        fuel := fuel - 1;
        SetPrevious();
      }
      if fuel == 0 {
        return Interrupted;
      }
      ghost var middle := history;
      SetCurrent(digest);
      ContinuesOn(lib, old(history), middle, history);
      outcome := Installed;
    }

    /** Installs the composed manifest, on any disk. At every instant `current` is the old pointer or the new
        version, and once it is the new one `previous` is the old. The installation is refused exactly when
        the manifest cannot be digested or printed, its version fails inspection, or the current pointer is bad. */
    method Compose(manifest: Manifest, reached: Option<string>, fuel0: nat) returns (outcome: Outcome)
      requires Recorded()
      modifies this`staging, this`versions, this`current, this`previous, this`history
      ensures Recorded() && Continues(lib, old(history), history)
      ensures old(Valid()) ==> Valid()
      ensures lib.digestOf(manifest).Some? ==> forall i :: |old(history)| <= i < |history| ==>
        Switching(old(Now()), lib.digestOf(manifest).value, history[i])
      ensures !outcome.Interrupted? ==> (outcome.Refused? <==> ComposeRefused(lib, old(Now()), manifest, reached))
      ensures outcome.Installed? || outcome.AlreadyCurrent? ==>
        && lib.digestOf(manifest).Some? && current == Some(Version(lib.digestOf(manifest).value))
        && versions == WithVersion(old(versions), lib.digestOf(manifest).value, reached)
      ensures outcome.Installed? ==> current != old(current) && previous == if old(current).Some? then old(current) else old(previous)
      ensures outcome.AlreadyCurrent? ==> current == old(current) && previous == old(previous)
      ensures outcome.Refused? ==> current == old(current) && previous == old(previous)
      ensures outcome.Refused? ==> versions == old(versions) || !Usable(ReadPointer(versions, current))
      ensures outcome.Refused? && old(Valid()) ==> versions == old(versions)
      ensures !outcome.RolledBack? && (fuel0 >= 5 ==> !outcome.Interrupted?)
    {
      var printed := lib.digestOf(manifest);
      if printed.None? {
        return Refused("digest_unavailable");
      }
      if lib.render(manifest).None? {
        return Refused("render_failed");
      }
      var refused, interrupted, fuel := MaterializeVersion(printed.value, reached, fuel0);
      if refused {
        return Refused("version_drifted");
      }
      if interrupted {
        return Interrupted;
      }
      ghost var middle := history;
      outcome := PointTo(printed.value, fuel);
      ContinuesOn(lib, old(history), middle, history);
    }

    /** Points `current` at `previous`, on any disk. It is refused exactly when one of the pointers is missing or
        bad or the previous version fails inspection. */
    method Rollback(fuel: nat) returns (outcome: Outcome)
      requires Recorded()
      modifies this`current, this`history
      ensures Recorded() && Continues(lib, old(history), history)
      ensures old(Valid()) ==> Valid()
      ensures outcome.Refused? <==> RollbackRefused(lib, old(Now()))
      ensures outcome.Interrupted? <==> !outcome.Refused? && fuel == 0
      ensures outcome.RolledBack? || outcome.Refused? || outcome.Interrupted?
      ensures outcome.RolledBack? ==> current == old(previous) == Some(Version(outcome.to)) && old(current) == Some(Version(outcome.from))
      ensures outcome.RolledBack? ==> history == old(history) + [Now()]
      ensures !outcome.RolledBack? ==> current == old(current) && history == old(history)
    {
      var from := ReadPointer(versions, current);
      if !from.Found? {
        return Refused("current_pointer");
      }
      var to := ReadPointer(versions, previous);
      if !to.Found? {
        return Refused("previous_pointer");
      }
      if InspectVersion(lib, versions[to.digest], to.digest) != Pass {
        return Refused("previous_invalid");
      }
      if fuel == 0 {
        return Interrupted;
      }
      SetCurrent(to.digest);
      outcome := RolledBack(from.digest, to.digest);
    }

    /** Rolling back after installing a new version over a current one restores that one, and both succeed
        whenever the old version is clean, the new one differs, and the write was sound. */
    method ComposeThenRollback(manifest: Manifest, reached: Option<string>) returns (installed: Outcome, rolled: Outcome)
      requires Recorded()
      modifies this`staging, this`versions, this`current, this`previous, this`history
      ensures Recorded() && Continues(lib, old(history), history)
      ensures old(Valid()) ==> Valid()
      ensures installed.Installed? && rolled.RolledBack? && old(current).Some? ==> current == old(current)
      ensures old(Valid()) && installed.Installed? && rolled.RolledBack? ==> current == old(current)
      ensures !ComposeRefused(lib, old(Now()), manifest, reached) && PointsToClean(lib, old(Now()), old(current))
              && old(current) != Some(Version(lib.digestOf(manifest).value))
        ==> installed.Installed? && rolled.RolledBack?
    {
      installed := Compose(manifest, reached, 5);
      ghost var middle := history;
      ghost var composed := Now();
      rolled := Rollback(1);
      ContinuesOn(lib, old(history), middle, history);
      assert old(Valid()) ==> PointersFound(old(Now()));
    }
  }

  // A current pointer that leads to no version, before or after the write, stops the installation.
  lemma BadPointerRefusesCompose(lib: Library, disk: Disk, manifest: Manifest, reached: Option<string>)
    requires disk.current.Some?
    requires forall d :: disk.current == Some(Version(d)) ==>
      !ValidDigest(d) || (if d in disk.versions then disk.versions[d].NotDirectory? else lib.digestOf(manifest) != Some(d))
    ensures ComposeRefused(lib, disk, manifest, reached)
  {
  }

  // An absent current pointer never does.
  lemma AbsentPointerIsUsable(versions: map<string, Entry>)
    ensures Usable(ReadPointer(versions, None))
  {
  }

  // What the digest function prints is what the store takes for a digest.
  lemma PrintedDigestIsValid(r: Sha256.Registers<Sha256.Word>)
    ensures ValidDigest(Sha256.Render(r))
  {
  }

  /** In a store that only the program has changed, composing is refused exactly when the manifest cannot be
      digested or printed, or its version is new and the write did not leave it clean. */
  lemma ComposeRefusedWhenSafe(lib: Library, history: seq<Disk>, manifest: Manifest, reached: Option<string>)
    requires history != [] && PrintsDigests(lib) && SafeHistory(lib, history)
    ensures var disk := history[|history| - 1];
            ComposeRefused(lib, disk, manifest, reached) <==>
            || lib.digestOf(manifest).None? || lib.render(manifest).None?
            || (lib.digestOf(manifest).value !in disk.versions
                && InspectVersion(lib, Directory(reached), lib.digestOf(manifest).value) != Pass)
  {
    var disk := history[|history| - 1];
    assert VersionsClean(lib, disk) && PointersFound(disk);
  }

  // A write that reached the disk as it was sent is never refused for its contents.
  lemma SoundWriteIsClean(lib: Library, manifest: Manifest, digest: string)
    requires PrintsDigests(lib) && RoundTrips(lib, manifest) && lib.digestOf(manifest) == Some(digest)
    ensures Clean(lib, Directory(lib.render(manifest)), digest)
  {
    assert Canonical(lib, Directory(lib.render(manifest)), manifest);
  }

  /** In such a store rolling back is refused exactly when a pointer is missing. */
  lemma RollbackRefusedWhenSafe(lib: Library, history: seq<Disk>)
    requires history != [] && SafeHistory(lib, history)
    ensures var disk := history[|history| - 1];
            RollbackRefused(lib, disk) <==> disk.current.None? || disk.previous.None?
  {
    var disk := history[|history| - 1];
    assert VersionsClean(lib, disk) && PointersFound(disk);
  }
}
