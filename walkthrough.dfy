/** The hand-off between OrganizeAndProcessFiles and RunExternalScript on an extracted archive
    holding one member t with an extension other than .gz (say a.txt) and one gzip member g
    (say b.gz): the copy rule and the dispatch rule disagree, so g is dispatched and t is not. */
module Walkthrough {
  import opened Wrappers
  import opened FileSystem
  import opened Tasks
  import opened Stages
  import opened Organize
  import opened Dispatch
  import PosixPath

  /** Destinations of members with different base names lie in different folders. */
  lemma DestinationsApart(cfg: Config, t: Name, g: Name)
    requires Base(t) != Base(g)
    ensures Destination(cfg, t) != Destination(cfg, g)
  {
    var n := |Output(cfg, OrganizeAndProcessFiles)|;
    assert Destination(cfg, t)[n] == Base(t) && Destination(cfg, g)[n] == Base(g);
  }

  /** Each of the two members has a destination that the other member does not share. */
  lemma UniqueDestination(fs: FS, cfg: Config, t: Name, g: Name, n: Name)
    requires Base(t) != Base(g) && (n == t || n == g)
    requires Children(fs, Output(cfg, VerifyAndExtractTar)) == {t, g}
    ensures forall m :: m in Children(fs, Output(cfg, VerifyAndExtractTar)) && m != n ==>
      Destination(cfg, m) != Destination(cfg, n)
  {
    DestinationsApart(cfg, t, g);
    forall m | m in Children(fs, Output(cfg, VerifyAndExtractTar)) && m != n
      ensures Destination(cfg, m) != Destination(cfg, n)
    {
      assert m in {t, g};
    }
  }

  /** Neither member's destination, nor a folder above it, is processed/<base t>/<base t>. */
  lemma TwinApart(fs: FS, cfg: Config, t: Name, g: Name, n: Name)
    requires Ext(t) != ".gz" && Ext(t) != "" && Ext(g) == ".gz" && Base(t) != Base(g)
    requires Children(fs, Output(cfg, VerifyAndExtractTar)) == {t, g}
    requires n in Children(fs, Output(cfg, VerifyAndExtractTar))
    ensures !Under(Destination(cfg, n), Output(cfg, OrganizeAndProcessFiles) + [Base(t), Base(t)])
  {
    var processed := Output(cfg, OrganizeAndProcessFiles);
    var qt := processed + [Base(t), Base(t)];
    assert n in {t, g};
    if n == t {
      var dt := Destination(cfg, t);
      assert Base(t) != t by {
        PosixPath.SplitExtShape(t);
        assert |Base(t) + Ext(t)| > |Base(t)|;
      }
      assert qt[|processed| + 1] != dt[|processed| + 1];
    } else {
      var dg := Destination(cfg, g);
      assert qt[|processed|] != dg[|processed|];
    }
  }

  /** The two members meet what a finished member loop needs of them. */
  lemma MembersReady(fs: FS, cfg: Config, gunzip: Bytes -> Inflation, t: Name, g: Name)
    requires Ext(t) != ".gz"
    requires Children(fs, Output(cfg, VerifyAndExtractTar)) == {t, g}
    requires IsFile(fs, Source(cfg, t)) && IsFile(fs, Source(cfg, g))
    requires gunzip(fs[Source(cfg, g)].content).intact
    ensures forall n :: n in Children(fs, Output(cfg, VerifyAndExtractTar)) ==>
      IsFile(fs, Source(cfg, n)) && (Ext(n) == ".gz" ==> gunzip(fs[Source(cfg, n)].content).intact)
  {
    forall n | n in Children(fs, Output(cfg, VerifyAndExtractTar))
      ensures IsFile(fs, Source(cfg, n)) && (Ext(n) == ".gz" ==> gunzip(fs[Source(cfg, n)].content).intact)
    {
      assert n == t || n == g;
    }
  }

  /** A finished organize run over a member t with an extension other than .gz and an intact
      gzip member g with different base names leaves processed/<base t>/<t> with t's bytes. */
  lemma TextCopied(fs: FS, cfg: Config, listing: set<Name> -> seq<Name>,
                   gunzip: Bytes -> Inflation, t: Name, g: Name)
    requires forall s :: IsListing(listing(s), s)
    requires Ext(t) != ".gz" && Ext(g) == ".gz" && Base(t) != Base(g)
    requires MakeDirs(fs, Output(cfg, OrganizeAndProcessFiles)).Some?
    requires IsDir(fs, Output(cfg, VerifyAndExtractTar))
    requires FoldersOfFiles(fs, Output(cfg, OrganizeAndProcessFiles))
    requires Children(fs, Output(cfg, VerifyAndExtractTar)) == {t, g}
    requires IsFile(fs, Source(cfg, t)) && IsFile(fs, Source(cfg, g))
    requires gunzip(fs[Source(cfg, g)].content).intact
    ensures var r := Organized(fs, cfg, listing, gunzip);
      && r.status.Done?
      && IsFile(r.fs, Destination(cfg, t)) && r.fs[Destination(cfg, t)] == fs[Source(cfg, t)]
  {
    MembersReady(fs, cfg, gunzip, t, g);
    OrganizeSucceeds(fs, cfg, listing, gunzip);
    UniqueDestination(fs, cfg, t, g, t);
    OrganizePlacesMember(fs, cfg, listing, gunzip, t);
    assert Payload(fs, cfg, t, gunzip) == fs[Source(cfg, t)].content;
  }

  /** In the same run the gzip member ends up decompressed at processed/<base g>/<base g>, inside
      the folder processed/<base g>. */
  lemma GzipInflated(fs: FS, cfg: Config, listing: set<Name> -> seq<Name>,
                     gunzip: Bytes -> Inflation, t: Name, g: Name)
    requires forall s :: IsListing(listing(s), s)
    requires Ext(t) != ".gz" && Ext(g) == ".gz" && Base(t) != Base(g)
    requires MakeDirs(fs, Output(cfg, OrganizeAndProcessFiles)).Some?
    requires IsDir(fs, Output(cfg, VerifyAndExtractTar))
    requires FoldersOfFiles(fs, Output(cfg, OrganizeAndProcessFiles))
    requires Children(fs, Output(cfg, VerifyAndExtractTar)) == {t, g}
    requires IsFile(fs, Source(cfg, t)) && IsFile(fs, Source(cfg, g))
    requires gunzip(fs[Source(cfg, g)].content).intact
    ensures var r := Organized(fs, cfg, listing, gunzip);
      && r.status.Done?
      && IsFile(r.fs, Destination(cfg, g))
      && r.fs[Destination(cfg, g)] == File(gunzip(fs[Source(cfg, g)].content).output)
      && IsDir(r.fs, Folder(cfg, g))
  {
    MembersReady(fs, cfg, gunzip, t, g);
    OrganizeSucceeds(fs, cfg, listing, gunzip);
    UniqueDestination(fs, cfg, t, g, g);
    OrganizePlacesMember(fs, cfg, listing, gunzip, g);
    assert Payload(fs, cfg, g, gunzip) == gunzip(fs[Source(cfg, g)].content).output;
  }

  /** Nothing puts a file at processed/<base t>/<base t>: it is neither an ancestor of processed
      nor a destination or a folder above one. */
  lemma TwinAbsent(fs: FS, cfg: Config, listing: set<Name> -> seq<Name>,
                   gunzip: Bytes -> Inflation, t: Name, g: Name)
    requires forall s :: IsListing(listing(s), s)
    requires Ext(t) != ".gz" && Ext(t) != "" && Ext(g) == ".gz" && Base(t) != Base(g)
    requires Children(fs, Output(cfg, VerifyAndExtractTar)) == {t, g}
    requires Output(cfg, OrganizeAndProcessFiles) + [Base(t), Base(t)] !in fs
    ensures Output(cfg, OrganizeAndProcessFiles) + [Base(t), Base(t)] !in Organized(fs, cfg, listing, gunzip).fs
  {
    var qt := Output(cfg, OrganizeAndProcessFiles) + [Base(t), Base(t)];
    if qt in Organized(fs, cfg, listing, gunzip).fs {
      OrganizeAddsAt(fs, cfg, listing, gunzip, qt);
      assert !Under(Output(cfg, OrganizeAndProcessFiles), qt);
      var n :| n in Children(fs, Output(cfg, VerifyAndExtractTar)) && Under(Destination(cfg, n), qt);
      TwinApart(fs, cfg, t, g, n);
      assert false;
    }
  }

  /** After a finished organize run RunExternalScript's makedirs(completed), when it succeeds,
      leaves a filesystem on which the files handed to the script include
      processed/<base g>/<base g> but not processed/<base t>/<base t>: the copied text member is
      never dispatched. With t = a.txt and g = b.gz, processed/b/b runs and processed/a/a.txt does
      not. */
  lemma TextMemberNotDispatched(fs: FS, cfg: Config, listing: set<Name> -> seq<Name>,
                                gunzip: Bytes -> Inflation, t: Name, g: Name)
    requires forall s :: IsListing(listing(s), s)
    requires Ext(t) != ".gz" && Ext(t) != "" && Ext(g) == ".gz" && Base(t) != Base(g)
    requires MakeDirs(fs, Output(cfg, OrganizeAndProcessFiles)).Some?
    requires IsDir(fs, Output(cfg, VerifyAndExtractTar))
    requires FoldersOfFiles(fs, Output(cfg, OrganizeAndProcessFiles))
    requires Children(fs, Output(cfg, VerifyAndExtractTar)) == {t, g}
    requires IsFile(fs, Source(cfg, t)) && IsFile(fs, Source(cfg, g))
    requires gunzip(fs[Source(cfg, g)].content).intact
    requires Output(cfg, OrganizeAndProcessFiles) + [Base(t), Base(t)] !in fs
    ensures var r := Organized(fs, cfg, listing, gunzip);
      var processed := Output(cfg, OrganizeAndProcessFiles);
      var made := MakeDirs(r.fs, Output(cfg, RunExternalScript));
      && r.status.Done?
      && (made.Some? ==>
            var targets := Targets(made.value, processed, listing(Children(made.value, processed)));
            && processed + [Base(g), Base(g)] in targets
            && processed + [Base(t), Base(t)] !in targets)
  {
    var processed := Output(cfg, OrganizeAndProcessFiles);
    GzipInflated(fs, cfg, listing, gunzip, t, g);
    TwinAbsent(fs, cfg, listing, gunzip, t, g);
    var r := Organized(fs, cfg, listing, gunzip);
    var fg := Folder(cfg, g);
    assert Destination(cfg, g) == processed + [Base(g), Base(g)];
    assert Base(g) in Children(r.fs, processed) by {
      assert fg in r.fs && fg[..|processed|] == processed && fg[|processed|] == Base(g);
    }
    if MakeDirs(r.fs, Output(cfg, RunExternalScript)).Some? {
      DispatchedExactly(r.fs, cfg, listing, Base(g));
      DispatchedExactly(r.fs, cfg, listing, Base(t));
    }
  }
}
