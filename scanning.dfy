/** Classification of a folder's entries into RAW and JPG files by their
    lower-cased suffix, in the order the folder lists them. */
module Scanning {
  import opened Paths
  import opened Storage
  import opened Selection

  /** `folder.iterdir()`: every direct child of `folder`, each once, in an
      order the OS chooses. */
  ghost predicate IsListing(fs: Fs, folder: Path, listing: seq<Path>) {
    && NoDups(listing)
    && forall p :: p in listing <==> fs.Exists(p) && p.Parent() == folder && p != folder
  }

  /** Whether the scan keeps a listed entry: a regular file whose lower-cased
      suffix is one of `extensions`. */
  predicate Keeps(fs: Fs, p: Path, extensions: set<string>) {
    p in fs.files && Lower(p.Suffix()) in extensions
  }

  /** The scan loop over one listing: the kept entries, in listing order. */
  function Classify(fs: Fs, listing: seq<Path>, extensions: set<string>): (r: seq<Path>)
    ensures |r| <= |listing|
    ensures forall p :: p in r ==> p in listing && p in fs.files && Lower(p.Suffix()) in extensions
  {
    SelectMembers(listing, p => Keeps(fs, p, extensions));
    Select(listing, p => Keeps(fs, p, extensions))
  }

  /** A listed entry is kept exactly when it is a regular file with a matching suffix. */
  lemma ClassifyMembers(fs: Fs, listing: seq<Path>, extensions: set<string>)
    ensures |Classify(fs, listing, extensions)| <= |listing|
    ensures forall p :: p in Classify(fs, listing, extensions) <==> p in listing && Keeps(fs, p, extensions)
  {
    SelectMembers(listing, p => Keeps(fs, p, extensions));
  }

  /** The scan keeps listing order: classifying two runs of a listing one
      after the other gives the two results one after the other. */
  lemma ClassifyAppend(fs: Fs, a: seq<Path>, b: seq<Path>, extensions: set<string>)
    ensures Classify(fs, a + b, extensions) == Classify(fs, a, extensions) + Classify(fs, b, extensions)
  {
    SelectAppend(a, b, p => Keeps(fs, p, extensions));
  }

  /** A duplicate-free listing gives a duplicate-free result. */
  lemma ClassifyNoDups(fs: Fs, listing: seq<Path>, extensions: set<string>)
    requires NoDups(listing)
    ensures NoDups(Classify(fs, listing, extensions))
  {
    SelectNoDups(listing, p => Keeps(fs, p, extensions));
  }

  /** Over a true listing of `folder`, the scan finds exactly the regular
      files directly inside `folder` whose lower-cased suffix matches, each once. */
  lemma ClassifyFolder(fs: Fs, folder: Path, listing: seq<Path>, extensions: set<string>)
    requires IsListing(fs, folder, listing)
    ensures NoDups(Classify(fs, listing, extensions))
    ensures forall p :: p in Classify(fs, listing, extensions) <==>
      p in fs.files && p.Parent() == folder && p != folder && Lower(p.Suffix()) in extensions
  {
    ClassifyMembers(fs, listing, extensions);
    ClassifyNoDups(fs, listing, extensions);
  }
}
