/** How file names are taken apart: by sfs_find of src/sfs.c and by fs_cdrom_find_file of src/cdrom.c. */
module Paths {
  import opened Support

  function Join(parts: seq<string>): string
    requires parts != []
  {
    if |parts| == 1 then parts[0] else parts[0] + "/" + Join(parts[1..])
  }

  /** The components of a path, taken apart at every slash. */
  function Split(path: string): (r: seq<string>)
    ensures r != []
    decreases |path|
  {
    var k := IndexOf(path, '/');
    if k == |path| then [path] else [path[..k]] + Split(path[k + 1..])
  }

  lemma {:induction false} SplitJoins(path: string)
    ensures Join(Split(path)) == path && forall p :: p in Split(path) ==> '/' !in p
    decreases |path|
  {
    var k := IndexOf(path, '/');
    if k < |path| {
      hide IndexOf;
      SplitJoins(path[k + 1..]);
      assert Split(path)[1..] == Split(path[k + 1..]);
      AroundSlash(path, k);
    }
  }

  lemma AroundSlash(path: string, k: nat)
    requires k < |path| && path[k] == '/'
    ensures path[..k] + "/" + path[k + 1..] == path
  {
  }

  /** The components that the CD-ROM code looks up: a slash that ends the path separates nothing. */
  function Elements(path: string): (r: seq<string>)
    ensures r != []
    decreases |path|
  {
    var k := IndexOf(path, '/');
    if k + 1 < |path| then [path[..k]] + Elements(path[k + 1..]) else [path]
  }

  /** Both ways to take a path apart agree exactly on paths that do not end in a slash. */
  lemma {:induction false} ElementsAreSplitIff(path: string)
    ensures Elements(path) == Split(path) <==> path == "" || path[|path| - 1] != '/'
    decreases |path|
  {
    var k := IndexOf(path, '/');
    if k + 1 < |path| {
      var rest := path[k + 1..];
      ElementsAreSplitIff(rest);
      assert Elements(path)[1..] == Elements(rest) && Split(path)[1..] == Split(rest);
      assert rest[|rest| - 1] == path[|path| - 1];
    } else if k < |path| {
      assert |Split(path)| == 1 + |Split(path[k + 1..])|;
    }
  }
}
