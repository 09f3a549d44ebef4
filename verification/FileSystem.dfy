/** The part of a POSIX file system the artifact store relies on: names bound to inodes, inodes holding bytes. */
module FileSystem {
  import opened Texts

  /** The names under one store root. A temporary name is `.qnty-tmp-` followed by a token. */
  datatype Name = ObjectName(sha256: Text) | ManifestName(sha256: Text) | TempName(token: nat)

  /** The published files and their bytes: all that is not a temporary file. */
  type Contents = map<Name, Bytes>

  /** `next` is an inode number never used so far. */
  datatype Fs = Fs(names: map<Name, nat>, inodes: map<nat, Bytes>, next: nat) {

    ghost predicate Valid() {
      && (forall n :: n in names ==> names[n] in inodes)
      && (forall i :: i in inodes ==> i < next)
    }

    /** The bytes a reader of this name gets. */
    function Content(n: Name): Bytes
      requires Valid() && n in names
    {
      inodes[names[n]]
    }

    function Public(): (r: Contents)
      requires Valid()
      ensures forall n :: n in r <==> n in names && !n.TempName?
      ensures forall n :: n in r ==> r[n] == Content(n)
    {
      map n | n in names && !n.TempName? :: Content(n)
    }

    /** `mkstemp`: a new empty file under a name that was free. */
    function Create(n: Name): Fs {
      Fs(names[n := next], inodes[next := []], next + 1)
    }

    /** `write` through a descriptor of the inode. */
    function Append(inode: nat, chunk: Bytes): Fs
      requires inode in inodes
    {
      this.(inodes := inodes[inode := inodes[inode] + chunk])
    }

    /** `link(source, target)`, where the target name is free. */
    function Link(source: Name, target: Name): Fs
      requires source in names
    {
      this.(names := names[target := names[source]])
    }

    function Unlink(n: Name): Fs {
      this.(names := names - {n})
    }
  }

  const EmptyFs := Fs(map[], map[], 0)
}
