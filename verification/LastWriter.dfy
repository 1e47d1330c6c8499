/** Who wins when two devices wrote the same record: tombstones first, then the later stamp. */
module LastWriter {
  import opened Clock

  datatype Resolution = Local | Remote | Identical

  datatype Version = Version(updatedAt: Hlc, deleted: bool)

  function Resolve(local: Version, remote: Version): Resolution {
    if local == remote then Identical
    else if local.deleted && !remote.deleted then Local
    else if !local.deleted && remote.deleted then Remote
    else if Less(remote.updatedAt, local.updatedAt) then Local
    else Remote
  }

  /** The order of versions: a tombstone is above every edit, otherwise the stamp decides. */
  predicate Below(a: Version, b: Version) {
    (!a.deleted && b.deleted) || (a.deleted == b.deleted && Less(a.updatedAt, b.updatedAt))
  }

  /** `Resolve` is the maximum of a strict total order, so it does not depend on whose side asks. */
  lemma ResolveIsMaximum(a: Version, b: Version)
    ensures Resolve(a, b).Identical? <==> a == b
    ensures Resolve(a, b).Remote? <==> Below(a, b)
    ensures Resolve(a, b).Local? <==> Below(b, a)
  {
    LessIsTime(a.updatedAt, b.updatedAt);
    LessIsTime(b.updatedAt, a.updatedAt);
  }

  lemma BelowIsTransitive(a: Version, b: Version, c: Version)
    requires Below(a, b) && Below(b, c)
    ensures Below(a, c)
  {
  }
}
