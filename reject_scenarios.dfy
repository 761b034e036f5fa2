/**
  What rejecting a title amounts to, stated only through the three modelled
  operations: setting the label to `would_not_watch`, `delete_media` on the
  title's recorded location, and `remove_torrent` on its hash. The three act
  on separate state (the table, the filesystem, the daemon), so the facts
  below hold whatever order the steps run in; the rejection endpoint itself
  is not part of this model.
 */
module RejectScenarios {
  import opened Wrappers
  import Db
  import Files
  import Transmission

  const Rejected := "would_not_watch"

  /**
    One rejection: the label is set with both flags, a file is deleted exactly
    when a candidate could be removed, and a present torrent is removed, its
    data with it only when `deleteData` asks for that.
   */
  lemma RejectOnce(rows: map<string, Db.TrainingRow>, imdbId: string, now: Db.Timestamp,
                   c: Files.Config, fs: Files.FsState, parentPath: string, targetPath: string, mediaType: string,
                   daemon: Transmission.DaemonState, hash: string, deleteData: bool, missing: Transmission.RpcError)
    requires imdbId in rows && c.fileDeletionEnabled
    ensures var (rows', labelResult) := Db.UpdateLabelOutcome(rows, imdbId, Rejected, now, Db.NoFault);
      && labelResult.success
      && rows'[imdbId].labelValue == Rejected && rows'[imdbId].humanLabeled && rows'[imdbId].reviewed
    ensures var (fs', media) := Files.DeleteMediaOutcome(c, fs, parentPath, targetPath, mediaType);
      var cands := Files.Candidates(c.cachePath, c.LibraryBase(mediaType), parentPath, targetPath);
      && media.success
      && (media.deleted <==> exists q :: q in cands && Files.Removable(fs, q))
      && (forall q :: q in media.paths ==> Files.Names(fs, q) && Files.Resolved(q) !in fs'.entries)
    ensures var (daemon', removal) := Transmission.RemovalOutcome(daemon, hash, deleteData, missing, Transmission.NoFault);
      && (hash in daemon.torrents ==> removal.success && removal.found && hash !in daemon'.torrents)
      && (hash in daemon.torrents && deleteData ==> hash in daemon'.dataDeleted)
      && (hash in daemon.torrents && !deleteData ==> daemon'.dataDeleted == daemon.dataDeleted)
      && !Transmission.ExistsOutcome(daemon', hash, missing, Transmission.NoFault)
  {
    Files.DeleteMediaDeletedIff(c, fs, parentPath, targetPath, mediaType);
    Files.DeleteMediaReportsRealDeletions(c, fs, parentPath, targetPath, mediaType);
  }

  /** A title whose files are nowhere on disk is still relabelled, and the filesystem is untouched. */
  lemma RejectWithoutFiles(rows: map<string, Db.TrainingRow>, imdbId: string, now: Db.Timestamp,
                           c: Files.Config, fs: Files.FsState, parentPath: string, targetPath: string, mediaType: string)
    requires imdbId in rows
    requires forall q :: q in Files.Candidates(c.cachePath, c.LibraryBase(mediaType), parentPath, targetPath) ==> !Files.Names(fs, q)
    ensures var (rows', labelResult) := Db.UpdateLabelOutcome(rows, imdbId, Rejected, now, Db.NoFault);
      labelResult.success && rows'[imdbId].labelValue == Rejected && rows'[imdbId].humanLabeled && rows'[imdbId].reviewed
    ensures var (fs', media) := Files.DeleteMediaOutcome(c, fs, parentPath, targetPath, mediaType);
      media.success && !media.deleted && fs' == fs
  {
    Files.DeleteMediaNothingFound(c, fs, parentPath, targetPath, mediaType);
  }

  /** Rejecting twice: the second time still succeeds, the label stays `would_not_watch`, no further file is deleted and the torrent is no longer found. */
  lemma RejectTwice(rows: map<string, Db.TrainingRow>, imdbId: string, t1: Db.Timestamp, t2: Db.Timestamp,
                    c: Files.Config, fs: Files.FsState, parentPath: string, targetPath: string, mediaType: string,
                    daemon: Transmission.DaemonState, hash: string, deleteData: bool, missing: Transmission.RpcError)
    requires imdbId in rows && missing.kind == Transmission.TransmissionError
    ensures var rows1 := Db.UpdateLabelOutcome(rows, imdbId, Rejected, t1, Db.NoFault).0;
      var (rows2, second) := Db.UpdateLabelOutcome(rows1, imdbId, Rejected, t2, Db.NoFault);
      second.success && rows2 == Db.LabelUpdated(rows, imdbId, Rejected, t2) && rows2[imdbId].labelValue == Rejected
    ensures var fs1 := Files.DeleteMediaOutcome(c, fs, parentPath, targetPath, mediaType).0;
      var (fs2, media) := Files.DeleteMediaOutcome(c, fs1, parentPath, targetPath, mediaType);
      media.success && !media.deleted && fs2 == fs1
    ensures var daemon1 := Transmission.RemovalOutcome(daemon, hash, deleteData, missing, Transmission.NoFault).0;
      var (daemon2, removal) := Transmission.RemovalOutcome(daemon1, hash, deleteData, missing, Transmission.NoFault);
      removal.success && !removal.found && daemon2 == daemon1
  {
    Db.LabelUpdateIdempotent(rows, imdbId, Rejected, t1, t2);
    Files.DeleteMediaTwice(c, fs, parentPath, targetPath, mediaType);
  }
}
