/** The `volunteers` directory that holds the generated QR images, and the two
    routes that empty it: clear_files and download_all. The directory is
    modelled by the set of names os.listdir would report. */
module Storage {
  import opened Text
  import opened Seqs

  /** filename.endswith('.png'). */
  predicate IsPng(name: string) {
    EndsWith(name, ".png")
  }

  /** What clearing leaves behind: the entries that are not PNG images. */
  function Cleared(files: set<string>): (kept: set<string>)
    ensures kept <= files
    ensures forall f :: f in kept ==> !IsPng(f)
    ensures forall f :: f in files && !IsPng(f) ==> f in kept
  {
    set f | f in files && !IsPng(f)
  }

  /** Clearing twice is clearing once, and clearing never touches a file
      other than an image. */
  lemma ClearedIdempotent(files: set<string>)
    ensures Cleared(Cleared(files)) == Cleared(files)
  {
    assert forall f :: f in Cleared(files) ==> f in Cleared(Cleared(files));
  }

  lemma ClearedKeepsOthers(files: set<string>, extra: set<string>)
    requires forall f :: f in extra ==> IsPng(f)
    ensures Cleared(files + extra) == Cleared(files)
  {
    assert forall f :: f in Cleared(files + extra) ==> f in Cleared(files);
  }

  /** A directory without images, an empty one among them, is left as it is. */
  lemma ClearedNoImages(files: set<string>)
    requires forall f :: f in files ==> !IsPng(f)
    ensures Cleared(files) == files
  {
    assert forall f :: f in files ==> f in Cleared(files);
  }

  class Directory {
    /** The names of the entries of the directory. */
    var files: set<string>

    constructor(files: set<string>)
      ensures this.files == files
    {
      this.files := files;
    }

    /** img.save: the named file now exists. */
    method Save(name: string)
      modifies this
      ensures files == old(files) + {name}
    {
      files := files + {name};
    }

    /** clear_files (app.py lines 174-178): every entry of the listing whose
        name ends in ".png" is removed, in whatever order the listing gives. */
    method Clear()
      modifies this
      ensures files == Cleared(old(files))
    {
      var listing := files;
      while listing != {}
        invariant listing <= old(files)
        invariant files == set f | f in old(files) && (!IsPng(f) || f in listing)
        decreases listing
      {
        var name :| name in listing;
        if IsPng(name) {
          files := files - {name};
        }
        listing := listing - {name};
      }
    }

    /** download_all (app.py lines 149-156): every ".png" entry goes into the
        archive once, under its own name, and the directory is then cleared. */
    method DownloadAll() returns (archive: seq<string>)
      modifies this
      ensures NoDup(archive)
      ensures forall f :: f in archive <==> f in old(files) && IsPng(f)
      ensures files == Cleared(old(files))
    {
      var listing := files;
      archive := [];
      while listing != {}
        invariant listing <= files
        invariant NoDup(archive)
        invariant forall f :: f in archive <==> f in files && IsPng(f) && f !in listing
        decreases listing
      {
        var name :| name in listing;
        if IsPng(name) {
          archive := archive + [name];
        }
        listing := listing - {name};
      }
      Clear();
    }
  }
}
