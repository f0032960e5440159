/** Directory trees of the repository and of the build workspace, and the
    recursive copy that materialises a workspace from the repository. */
module Tree {
  import opened Wrappers

  type Byte = x: int | 0 <= x < 256

  type Bytes = seq<Byte>

  /** A file-system entry: a regular file, an entry that is not a regular file
      and cannot be read as one (such as the socket git's file-system monitor
      listens on), or a directory mapping names to entries. */
  datatype Node = File(data: Bytes) | Socket | Dir(children: map<string, Node>)

  /** The name of git's file-system monitor socket, which the copy skips. */
  const IPC_NAME := "fsmonitor--daemon.ipc"

  function Last(p: seq<string>): string
    requires p != []
  {
    p[|p| - 1]
  }

  /** The entry at path p below n, if there is one. */
  function Lookup(n: Node, p: seq<string>): Option<Node>
    decreases p
  {
    if p == [] then Some(n)
    else match n
      case Dir(m) => if p[0] in m then Lookup(m[p[0]], p[1..]) else None
      case _ => None
  }

  /** n without the entry at path p (n itself when there is no such entry). */
  function RemoveFile(n: Node, p: seq<string>): Node
    decreases p
  {
    if p == [] then n
    else match n
      case Dir(m) =>
        if p[0] !in m then n
        else if |p| == 1 then Dir(m - {p[0]})
        else Dir(m[p[0] := RemoveFile(m[p[0]], p[1..])])
      case _ => n
  }

  /** Removing the entry at p removes everything at or below p and leaves
      every path that is neither above nor below p as it was. */
  lemma {:induction false} RemoveFileEffect(n: Node, p: seq<string>, q: seq<string>)
    requires p != []
    ensures p <= q ==> Lookup(RemoveFile(n, p), q) == None
    ensures !(p <= q) && !(q <= p) ==> Lookup(RemoveFile(n, p), q) == Lookup(n, q)
    decreases p
  {
    if q != [] && n.Dir? && p[0] in n.children && |p| > 1 && q[0] == p[0] {
      RemoveFileEffect(n.children[p[0]], p[1..], q[1..]);
      assert p <= q <==> p[1..] <= q[1..];
      assert q <= p <==> q[1..] <= p[1..];
    }
  }

  /** Whether copy_repo copies the entry name |-> node: directories always,
      anything else unless it is named IPC_NAME. */
  predicate Kept(name: string, node: Node) {
    node.Dir? || name != IPC_NAME
  }

  /** The tree copy_repo writes for n: every directory, and every other entry
      except those named IPC_NAME. */
  function Filtered(n: Node): Node {
    match n
    case Dir(m) => Dir(map k | k in m && Kept(k, m[k]) :: Filtered(m[k]))
    case _ => n
  }

  /** Whether copy_repo succeeds on n: n is a directory and every entry below
      it that is copied as a file is a regular file. */
  predicate Copyable(n: Node) {
    n.Dir? &&
    forall k :: k in n.children && Kept(k, n.children[k]) ==>
      if n.children[k].Dir? then Copyable(n.children[k]) else n.children[k].File?
  }

  /** Copies the directory source entry by entry, in whatever order the
      directory lists them, recursing into subdirectories and skipping
      non-directories named IPC_NAME; fails when source is not a directory or
      an entry to copy is not a regular file. */
  method CopyRepo(source: Node) returns (copy: Option<Node>)
    ensures copy.Some? <==> Copyable(source)
    ensures copy.Some? ==> copy.value == Filtered(source)
    decreases source
  {
    if !source.Dir? {
      return None;
    }
    var entries := source.children;
    var done: map<string, Node> := map[];
    var pending := entries.Keys;
    while pending != {}
      invariant pending <= entries.Keys
      invariant forall k :: k in entries && k !in pending && Kept(k, entries[k]) ==>
        if entries[k].Dir? then Copyable(entries[k]) else entries[k].File?
      invariant done == map k | k in entries && k !in pending && Kept(k, entries[k]) :: Filtered(entries[k])
      decreases pending
    {
      var name :| name in pending;
      var node := entries[name];
      if node.Dir? {
        var sub := CopyRepo(node);
        if sub.None? {
          return None;
        }
        done := done[name := sub.value];
      } else if name != IPC_NAME {
        if !node.File? {
          return None;
        }
        done := done[name := node];
      }
      pending := pending - {name};
    }
    copy := Some(Dir(done));
  }

  /** Looking a path up in the copy is looking it up in the source and copying
      what is found, except that a non-directory named IPC_NAME is absent. */
  lemma {:induction false} LookupFiltered(n: Node, p: seq<string>)
    ensures Lookup(Filtered(n), p) ==
      match Lookup(n, p)
      case None => None
      case Some(found) => if p != [] && !Kept(Last(p), found) then None else Some(Filtered(found))
    decreases p
  {
    if p != [] && n.Dir? && p[0] in n.children {
      var child := n.children[p[0]];
      if Kept(p[0], child) {
        LookupFiltered(child, p[1..]);
        if p[1..] != [] {
          assert Last(p[1..]) == Last(p);
        }
      }
    }
  }

  /** The copy holds the same files with the same contents under the same
      names, except files named IPC_NAME, and the same directories. */
  lemma CopyFaithful(source: Node, p: seq<string>, data: Bytes)
    ensures p != [] ==>
      (Lookup(Filtered(source), p) == Some(File(data)) <==>
         Lookup(source, p) == Some(File(data)) && Last(p) != IPC_NAME)
    ensures (Lookup(Filtered(source), p).Some? && Lookup(Filtered(source), p).value.Dir?)
        <==> (Lookup(source, p).Some? && Lookup(source, p).value.Dir?)
    ensures p != [] && Last(p) == IPC_NAME && Lookup(Filtered(source), p).Some? ==>
      Lookup(Filtered(source), p).value.Dir?
  {
    LookupFiltered(source, p);
  }

  /** Below a copyable directory, every entry the copy keeps is a copyable
      directory or a regular file. */
  lemma {:induction false} CopyableBelow(n: Node, p: seq<string>)
    requires Copyable(n)
    requires Lookup(n, p).Some?
    requires p != [] ==> Kept(Last(p), Lookup(n, p).value)
    ensures Lookup(n, p).value.Dir? ==> Copyable(Lookup(n, p).value)
    ensures !Lookup(n, p).value.Dir? ==> Lookup(n, p).value.File?
    decreases p
  {
    if p != [] {
      var child := n.children[p[0]];
      if p[1..] == [] {
        assert Lookup(n, p).value == child;
      } else {
        assert Last(p[1..]) == Last(p);
        CopyableBelow(child, p[1..]);
      }
    }
  }

  /** A successful copy contains only regular files and directories. */
  lemma {:induction false} CopyHasNoSockets(source: Node, p: seq<string>)
    requires Copyable(source)
    ensures Lookup(Filtered(source), p) != Some(Socket)
  {
    LookupFiltered(source, p);
    if Lookup(source, p).Some? && (p == [] || Kept(Last(p), Lookup(source, p).value)) {
      CopyableBelow(source, p);
    }
  }
}
