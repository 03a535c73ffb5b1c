/** `sync_workspace`: bringing the host's changes into the guest, deletions first, unless that would destroy an
    edit made in the guest; and what git reports about the host. */
module WorkspaceSync {
  import opened Common
  import opened ChangeList

  type Files = map<string, string>

  function At(files: Files, path: string): Option<string> {
    if path in files then Some(files[path]) else None
  }

  // The guest

  datatype SyncError = Conflicts(paths: seq<string>) | GuestFailed | ArchiveFailed
  datatype SyncResult = NothingToSync | Synced

  predicate Edited(files: Files, checkout: Files, path: string) {
    At(files, path) != At(checkout, path)
  }

  /** What git knows in the guest: whether it works in the workspace at all, what was checked out there, and
      which paths are ignored. */
  datatype GuestGit = GuestGit(works: bool, checkout: Files, ignored: set<string>)

  /** An ignored file that the checkout does not have is not reported by `git status`. */
  predicate Hidden(git: GuestGit, path: string) {
    path !in git.checkout && path in git.ignored
  }

  /** A failing `git status` counts as nothing to report. */
  predicate Reported(git: GuestGit, files: Files, path: string) {
    git.works && Edited(files, git.checkout, path) && !Hidden(git, path)
  }

  /** The candidates that git reports as edited in the guest since its checkout. */
  function ReportedPaths(candidates: seq<string>, files: Files, git: GuestGit): (reported: seq<string>)
    ensures forall p :: p in reported <==> p in candidates && Reported(git, files, p)
  {
    if candidates == [] then []
    else
      (if Reported(git, files, candidates[0]) then [candidates[0]] else []) +
      ReportedPaths(candidates[1..], files, git)
  }

  predicate Listed(lists: Lists, path: string) {
    path in lists.modified || path in lists.deleted
  }

  /** The files after the deletions and the extraction of the host's present files. */
  function SyncedFiles(files: Files, host: Files, modified: seq<string>, deleted: seq<string>): Files
    requires forall p | p in modified :: p in host
  {
    (files - set p | p in deleted) + map p | p in modified :: host[p]
  }

  function SyncCandidates(lists: Lists): seq<string> {
    SortDedup(lists.modified + lists.deleted)
  }

  class Guest {
    var files: Files
    const git: GuestGit

    constructor (files: Files, git: GuestGit)
      ensures this.files == files && this.git == git
    {
      this.files, this.git := files, git;
    }

    /** Asks the guest's git about the candidates; reaching the guest may fail. */
    method GuestModified(candidates: seq<string>) returns (r: Result<seq<string>, SyncError>)
      ensures r.Ok? ==> forall p :: p in r.value <==> p in candidates && Reported(git, files, p)
      ensures r.Err? ==> r.error == GuestFailed
    {
      if * {
        return Err(GuestFailed);
      }
      r := Ok(ReportedPaths(candidates, files, git));
    }

    /** `rm -f` of every listed path, in one call that may fail after any of them. */
    method RemoveAll(deleted: seq<string>) returns (ok: bool)
      modifies this
      ensures ok ==> files == old(files) - set p | p in deleted
      ensures !ok ==> forall p :: At(files, p) == At(old(files), p) || (p in deleted && p !in files)
    {
      var n: nat :| n <= |deleted|;
      var reported: bool := *;
      ok := n == |deleted| && reported;
      var removed := deleted[..n];
      assert deleted[..|deleted|] == deleted;
      files := files - set p | p in removed;
    }

    /** Copying in and extracting an archive, which may fail after any of its files. */
    method Extract(archive: Files) returns (ok: bool)
      modifies this
      ensures ok ==> files == old(files) + archive
      ensures !ok ==> forall p :: At(files, p) == At(old(files), p) || (p in archive && At(files, p) == At(archive, p))
    {
      var extracted: set<string>, reported: bool := *, *;
      ok := archive.Keys <= extracted && reported;
      files := files + map p | p in archive && p in extracted :: archive[p];
    }

    method SyncWorkspace(lists: Lists, host: Files, force: bool) returns (r: Result<SyncResult, SyncError>)
      modifies this
      ensures r == Ok(NothingToSync) <==> lists.modified == [] && lists.deleted == []
      ensures r == Ok(NothingToSync) ==> files == old(files)
      ensures r.Ok? ==> (forall p | p in lists.modified :: p in host)
                        && files == SyncedFiles(old(files), host, lists.modified, lists.deleted)
      ensures forall p | !Listed(lists, p) :: At(files, p) == At(old(files), p)
      ensures !force ==> forall p | Reported(git, old(files), p) :: At(files, p) == At(old(files), p)
      ensures !force && files != old(files) ==> forall p | Listed(lists, p) :: !Reported(git, old(files), p)
      ensures r.Err? ==> forall p | Listed(lists, p) ::
        || At(files, p) == At(old(files), p)
        || (p in lists.deleted && p !in files)
        || (p in lists.modified && At(files, p) == At(host, p))
      ensures r.Err? && r.error.Conflicts? ==>
        && !force && files == old(files) && r.error.paths != []
        && forall p :: p in r.error.paths <==> Listed(lists, p) && Reported(git, old(files), p)
      ensures !force && (exists p :: Listed(lists, p) && Reported(git, old(files), p)) ==>
        r.Err? && (r.error.Conflicts? || r.error == GuestFailed) && files == old(files)
    {
      if lists.modified == [] && lists.deleted == [] {
        NothingSynced(files, host, lists);
        return Ok(NothingToSync);
      }
      SortDedupKeeps(lists.modified + lists.deleted);
      var conflicts := GuestModified(SyncCandidates(lists));
      if conflicts.Err? {
        return Err(conflicts.error);
      }
      if conflicts.value != [] && !force {
        assert conflicts.value[0] in conflicts.value;
        return Err(Conflicts(conflicts.value));
      }
      r := BringOver(lists, host);
    }

    /** The part that changes the guest: deletions first, then the archive. */
    method BringOver(lists: Lists, host: Files) returns (r: Result<SyncResult, SyncError>)
      modifies this
      ensures r.Ok? ==> r.value == Synced && (forall p | p in lists.modified :: p in host)
                        && files == SyncedFiles(old(files), host, lists.modified, lists.deleted)
      ensures forall p | !Listed(lists, p) :: At(files, p) == At(old(files), p)
      ensures r.Err? ==> !r.error.Conflicts? && forall p | Listed(lists, p) ::
        || At(files, p) == At(old(files), p)
        || (p in lists.deleted && p !in files)
        || (p in lists.modified && At(files, p) == At(host, p))
    {
      if lists.deleted != [] {
        var removed := RemoveAll(lists.deleted);
        if !removed {
          return Err(GuestFailed);
        }
      }
      if lists.modified != [] {
        if exists p | p in lists.modified :: p !in host {
          return Err(ArchiveFailed);
        }
        var extracted := Extract(map p | p in lists.modified :: host[p]);
        if !extracted {
          return Err(GuestFailed);
        }
      }
      r := Ok(Synced);
    }
  }

  lemma NothingSynced(files: Files, host: Files, lists: Lists)
    requires lists.modified == [] && lists.deleted == []
    ensures SyncedFiles(files, host, lists.modified, lists.deleted) == files
  {
  }

  /** After a successful sync every listed path that is present on the host equals the host's, also when the
      path is listed as deleted too, and every path listed only as deleted is gone. */
  lemma SyncedPathByPath(files: Files, host: Files, modified: seq<string>, deleted: seq<string>, p: string)
    requires forall q | q in modified :: q in host
    ensures At(SyncedFiles(files, host, modified, deleted), p) ==
      if p in modified then At(host, p) else if p in deleted then None else At(files, p)
  {
  }

  /** Every listed path equals the host's state exactly when the paths listed only as deleted are gone from
      the host too. */
  lemma ListedPathsEqualHostExactly(files: Files, host: Files, lists: Lists)
    requires forall q | q in lists.modified :: q in host
    ensures var after := SyncedFiles(files, host, lists.modified, lists.deleted);
      (forall p | p in lists.modified || p in lists.deleted :: At(after, p) == At(host, p))
      <==> (forall p | p in lists.deleted && p !in lists.modified :: p !in host)
  {
    var after := SyncedFiles(files, host, lists.modified, lists.deleted);
    forall p
      ensures At(after, p) ==
        if p in lists.modified then At(host, p) else if p in lists.deleted then None else At(files, p)
    {
      SyncedPathByPath(files, host, lists.modified, lists.deleted, p);
    }
    if forall p | p in lists.modified || p in lists.deleted :: At(after, p) == At(host, p) {
      forall p | p in lists.deleted && p !in lists.modified
        ensures p !in host
      {
        assert At(after, p) == At(host, p);
      }
    }
  }

  /** Without force a sync goes ahead when no listed edit is reported. It then destroys an edit made in the
      guest exactly when git failed there or the file is hidden from it, and the host's state differs. */
  lemma UnforcedSyncDestroysExactly(files: Files, git: GuestGit, host: Files, lists: Lists, p: string)
    requires forall q | q in lists.modified :: q in host
    requires forall q | Listed(lists, q) :: !Reported(git, files, q)
    requires Edited(files, git.checkout, p)
    ensures At(SyncedFiles(files, host, lists.modified, lists.deleted), p) != At(files, p) <==>
      && Listed(lists, p) && (!git.works || Hidden(git, p))
      && At(files, p) != if p in lists.modified then At(host, p) else None
  {
    SyncedPathByPath(files, host, lists.modified, lists.deleted, p);
    assert Listed(lists, p) ==> !Reported(git, files, p);
  }

  /** When git works in the guest and nothing there is ignored, no edit is destroyed without force. */
  lemma VisibleEditsSurvive(files: Files, git: GuestGit, host: Files, lists: Lists, p: string)
    requires forall q | q in lists.modified :: q in host
    requires forall q | Listed(lists, q) :: !Reported(git, files, q)
    requires Edited(files, git.checkout, p) && git.works && p !in git.ignored
    ensures At(SyncedFiles(files, host, lists.modified, lists.deleted), p) == At(files, p)
  {
    UnforcedSyncDestroysExactly(files, git, host, lists, p);
  }

  /** A file made in the guest at an ignored path is overwritten without a conflict by a file of the host. */
  lemma HiddenEditIsOverwritten(guest: string, host: string)
    requires guest != host
    ensures var git := GuestGit(true, map[], {"f"});
      && Edited(map["f" := guest], git.checkout, "f")
      && ReportedPaths(["f"], map["f" := guest], git) == []
      && At(SyncedFiles(map["f" := guest], map["f" := host], ["f"], []), "f") == Some(host)
  {
    var git := GuestGit(true, map[], {"f"});
    assert Hidden(git, "f");
    assert ReportedPaths(["f"], map["f" := guest], git) == [] + ReportedPaths([], map["f" := guest], git);
    SyncedPathByPath(map["f" := guest], map["f" := host], ["f"], [], "f");
  }

  // The host, and what git says about it

  /** The last commit, the indexed paths, the working files and the ignored paths. */
  datatype Host = Host(head: Files, index: set<string>, work: Files, ignored: set<string>)

  /** The name-status records describe the tracked paths: a path of the commit that left the index or the
      working tree is gone, an indexed file that differs from the commit is present. A rename reports both of
      its paths, a copy its target. */
  ghost predicate DiffOf(h: Host, records: seq<Record>) {
    && (forall r | r in records :: WellFormed(r))
    && (forall p :: p in AllGone(records) <==> p in h.head && (p !in h.index || p !in h.work))
    && (forall p :: p in AllPresent(records) <==> p in h.index && p in h.work && At(h.head, p) != At(h.work, p))
  }

  ghost predicate UntrackedOf(h: Host, paths: seq<string>) {
    && (forall p | p in paths :: Token(p))
    && forall p :: p in paths <==> p in h.work && p !in h.index && p !in h.ignored
  }

  /** A path of the commit that was taken out of the index and is ignored, but is still there. */
  predicate KeptButIgnored(h: Host, p: string) {
    p in h.head && p !in h.index && p in h.work && p in h.ignored
  }

  /** What `host_changes` lists for such a host. */
  ghost predicate ListsOf(h: Host, lists: Lists) {
    exists records, untracked :: ListedFrom(h, records, untracked, lists)
  }

  ghost predicate ListedFrom(h: Host, records: seq<Record>, untracked: seq<string>, lists: Lists) {
    && DiffOf(h, records) && UntrackedOf(h, untracked)
    && (forall p :: p in lists.modified <==> p in AllPresent(records) || p in untracked)
    && (forall p :: p in lists.deleted <==> p in AllGone(records))
  }

  /** The lists that `HostChanges` computes from git's two streams are such lists. */
  method HostLists(ghost h: Host, ghost records: seq<Record>, ghost untracked: seq<string>,
                   nameStatus: string, others: string) returns (lists: Lists)
    requires DiffOf(h, records) && UntrackedOf(h, untracked)
    requires nameStatus == Encode(records) && others == Terminated(untracked)
    ensures ListsOf(h, lists)
    ensures forall p | p in lists.modified :: p in h.work
  {
    lists := HostChanges(nameStatus, others);
    DecodesWhatWasEncoded(records);
    ChunksOfTerminated(untracked);
    assert ListedFrom(h, records, untracked, lists);
  }

  /** What is listed, in terms of the host. */
  lemma ListsDescribeTheHost(h: Host, lists: Lists, p: string)
    requires ListsOf(h, lists)
    ensures p in lists.modified <==>
      && p in h.work
      && if p in h.index then At(h.head, p) != At(h.work, p) else p !in h.ignored
    ensures p in lists.deleted <==> p in h.head && (p !in h.index || p !in h.work)
  {
    var records, untracked :| ListedFrom(h, records, untracked, lists);
    assert p in lists.modified <==> p in AllPresent(records) || p in untracked;
    assert p in lists.deleted <==> p in AllGone(records);
  }

  /** Git looks at such a path: it is not an ignored path that neither the commit nor the index has. */
  predicate Visible(h: Host, p: string) {
    p in h.head || p in h.index || p !in h.ignored
  }

  /** Listed paths are visible, and a visible path that is not listed is as in the host's commit. */
  lemma UnlistedIsCommitted(h: Host, lists: Lists, p: string)
    requires ListsOf(h, lists)
    ensures Listed(lists, p) ==> Visible(h, p)
    ensures Visible(h, p) && !Listed(lists, p) ==> At(h.work, p) == At(h.head, p)
  {
    ListsDescribeTheHost(h, lists, p);
  }

  /** Whatever the guest has, a sync makes it agree with the host at a listed path unless that is an ignored file
      that is still there after leaving the index; at another path it agrees exactly if it did before. */
  lemma SyncAgreesExactly(guest: Files, h: Host, lists: Lists, p: string)
    requires ListsOf(h, lists) && forall q | q in lists.modified :: q in h.work
    ensures At(SyncedFiles(guest, h.work, lists.modified, lists.deleted), p) == At(h.work, p) <==>
      if Listed(lists, p) then !KeptButIgnored(h, p) else At(guest, p) == At(h.work, p)
  {
    SyncedPathByPath(guest, h.work, lists.modified, lists.deleted, p);
    ListsDescribeTheHost(h, lists, p);
  }

  // Syncs of a host that changes

  /** A sync that went ahead: the host at that time and what it listed. */
  datatype HostSync = HostSync(h: Host, lists: Lists)

  ghost predicate IsSync(s: HostSync) {
    ListsOf(s.h, s.lists) && forall q | q in s.lists.modified :: q in s.h.work
  }

  ghost predicate AreSyncs(syncs: seq<HostSync>) {
    forall s | s in syncs :: IsSync(s)
  }

  ghost function AfterSync(guest: Files, s: HostSync): Files
    requires IsSync(s)
  {
    SyncedFiles(guest, s.h.work, s.lists.modified, s.lists.deleted)
  }

  ghost function AfterSyncs(guest: Files, syncs: seq<HostSync>): Files
    requires AreSyncs(syncs)
    decreases |syncs|
  {
    if syncs == [] then guest else AfterSyncs(AfterSync(guest, syncs[0]), syncs[1..])
  }

  /** What a sync leaves at a path it lists. */
  function Brought(s: HostSync, p: string): Option<string> {
    if p in s.lists.modified then At(s.h.work, p) else None
  }

  /** The last of the syncs that lists the path. */
  function LastListing(syncs: seq<HostSync>, p: string): Option<HostSync> {
    if syncs == [] then None
    else if Listed(syncs[|syncs| - 1].lists, p) then Some(syncs[|syncs| - 1])
    else LastListing(syncs[..|syncs| - 1], p)
  }

  /** What the guest has after the syncs, if they decide it, and otherwise what it had. */
  function Left(guest: Files, syncs: seq<HostSync>, p: string): Option<string> {
    match LastListing(syncs, p)
    case None => At(guest, p)
    case Some(s) => Brought(s, p)
  }

  /** After any syncs a path is as the last sync that listed it left it. */
  lemma {:induction false} SyncsLeave(guest: Files, syncs: seq<HostSync>, p: string)
    requires AreSyncs(syncs)
    ensures At(AfterSyncs(guest, syncs), p) == Left(guest, syncs, p)
  {
    if syncs == [] {
    } else {
      var last := |syncs| - 1;
      SyncsLeave(guest, syncs[..last], p);
      LastSyncIsLast(guest, syncs);
      assert IsSync(syncs[last]);
      SyncedPathByPath(AfterSyncs(guest, syncs[..last]), syncs[last].h.work, syncs[last].lists.modified,
                       syncs[last].lists.deleted, p);
    }
  }

  lemma {:induction false} LastSyncIsLast(guest: Files, syncs: seq<HostSync>)
    requires AreSyncs(syncs) && syncs != []
    ensures AfterSyncs(guest, syncs) == AfterSync(AfterSyncs(guest, syncs[..|syncs| - 1]), syncs[|syncs| - 1])
    decreases |syncs|
  {
    var last := |syncs| - 1;
    if last == 0 {
      assert syncs[1..] == [];
    } else {
      assert syncs[1..][..last - 1] == syncs[..last][1..];
      LastSyncIsLast(AfterSync(guest, syncs[0]), syncs[1..]);
    }
  }

  /** After any syncs the guest agrees with the host of the last one at a path that it listed, unless that is kept but
      ignored; at another path git sees exactly if what an earlier sync left there, or what the guest had from the
      start, is what the host has in its commit. */
  lemma SyncsAgreeExactly(guest: Files, syncs: seq<HostSync>, p: string)
    requires AreSyncs(syncs) && syncs != []
    requires Visible(syncs[|syncs| - 1].h, p)
    ensures var last, before := syncs[|syncs| - 1], syncs[..|syncs| - 1];
      At(AfterSyncs(guest, syncs), p) == At(last.h.work, p) <==>
        if Listed(last.lists, p) then !KeptButIgnored(last.h, p)
        else Left(guest, before, p) == At(last.h.head, p)
  {
    var last, before := syncs[|syncs| - 1], syncs[..|syncs| - 1];
    LastSyncIsLast(guest, syncs);
    assert IsSync(last);
    SyncsLeave(guest, before, p);
    SyncAgreesExactly(AfterSyncs(guest, before), last.h, last.lists, p);
    UnlistedIsCommitted(last.h, last.lists, p);
  }

  /** A sync of one edited file. */
  function EditedHost(first: string, edit: string): HostSync {
    HostSync(Host(map["f" := first], {"f"}, map["f" := edit], {}), Lists(["f"], []))
  }

  lemma EditIsListed(first: string, edit: string)
    requires edit != first
    ensures IsSync(EditedHost(first, edit))
  {
    var h, changed := EditedHost(first, edit).h, [Changed("M", "f")];
    assert AllPresent(changed) == ["f"] + AllPresent(changed[1..]) == ["f"];
    assert AllGone(changed) == [] + AllGone(changed[1..]) == [];
    assert ListedFrom(h, changed, [], Lists(["f"], []));
  }

  /** An edit is synced and then taken back, or replaced by a commit, so that the host has no change any more: the
      next sync finds nothing to do, and the edit stays in the guest. */
  lemma RevertedEditStays(guest: Files, first: string, edit: string, next: string)
    requires edit != first && edit != next
    ensures var edited := EditedHost(first, edit);
      var clean := HostSync(Host(map["f" := next], {"f"}, map["f" := next], {}), Lists([], []));
      && AreSyncs([edited, clean]) && !KeptButIgnored(clean.h, "f")
      && At(AfterSyncs(guest, [edited, clean]), "f") == Some(edit)
      && At(clean.h.work, "f") == Some(next)
  {
    var edited := EditedHost(first, edit);
    var clean := HostSync(Host(map["f" := next], {"f"}, map["f" := next], {}), Lists([], []));
    EditIsListed(first, edit);
    assert ListedFrom(clean.h, [], [], clean.lists);
    var syncs := [edited, clean];
    SyncsLeave(guest, syncs, "f");
    assert syncs[..1] == [edited];
    assert LastListing([edited], "f") == Some(edited);
  }

  /** Git in the guest compares with the checkout. After a sync it reports a listed path exactly if it looks at it and
      what the sync left there is not what was checked out: the next sync of that path is then refused without force,
      though nobody edited it in the guest. */
  lemma SyncedPathsAreReportedExactly(guest: Files, git: GuestGit, s: HostSync, p: string)
    requires IsSync(s) && Listed(s.lists, p)
    ensures Reported(git, AfterSync(guest, s), p) <==>
      git.works && !Hidden(git, p) && Brought(s, p) != At(git.checkout, p)
  {
    SyncedPathByPath(guest, s.h.work, s.lists.modified, s.lists.deleted, p);
  }

  /** Nobody edits the guest, and yet after the first sync of an edit git reports the file as edited there. */
  lemma OwnSyncIsReported(first: string, edit: string)
    requires edit != first
    ensures IsSync(EditedHost(first, edit))
    ensures Reported(GuestGit(true, map["f" := first], {}), AfterSync(map["f" := first], EditedHost(first, edit)), "f")
  {
    EditIsListed(first, edit);
    SyncedPathsAreReportedExactly(map["f" := first], GuestGit(true, map["f" := first], {}), EditedHost(first, edit),
                                  "f");
  }

  /** A kept but ignored file makes a difference: after `git rm --cached` of an ignored file the sync deletes it in the
      guest, though the host still has it. */
  lemma KeptButIgnoredIsLost(guest: Files, content: string)
    ensures var h := Host(map["f" := content], {}, map["f" := content], {"f"});
      var lists := Lists([], ["f"]);
      && ListsOf(h, lists)
      && At(SyncedFiles(guest, h.work, lists.modified, lists.deleted), "f") == None
      && At(h.work, "f") == Some(content)
  {
    var h := Host(map["f" := content], {}, map["f" := content], {"f"});
    var lists := Lists([], ["f"]);
    var records := [Deleted("f")];
    assert AllGone(records) == ["f"] + AllGone(records[1..]) == ["f"];
    assert AllPresent(records) == [] + AllPresent(records[1..]) == [];
    assert ListedFrom(h, records, [], lists);
    SyncedPathByPath(guest, h.work, [], ["f"], "f");
  }
}
