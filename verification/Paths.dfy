/** Path resolution with counted references. */
module Paths {

  datatype Kind = File | Dir | Link

  /** NotFound and Unsupported are KM_RESULT_NOT_FOUND and KM_RESULT_UNSUPPORTED_OPERATION; FsFailed is
      whatever the file system's own lookup reports. */
  datatype Error = NotFound | Unsupported | FsFailed

  datatype Result<T> = Ok(value: T) | Err(error: Error)

  // ------------------------------------------------------------------ nodes and counted pointers

  /** A file node.  `subnodes` are the children linked into a directory, `backing` those that its
      file system's `subnode` operation finds. */
  class FNode {
    const kind: Kind
    const subnodes: map<string, FNode>
    const backing: map<string, FNode>
    var refCount: nat
    var destroyed: bool

    constructor (kind: Kind, subnodes: map<string, FNode>, backing: map<string, FNode>)
      ensures this.kind == kind && this.subnodes == subnodes && this.backing == backing
      ensures refCount == 1 && !destroyed
    {
      this.kind, this.subnodes, this.backing := kind, subnodes, backing;
      refCount, destroyed := 1, false;
    }

    /** `fs_ref_fnode`. */
    method Ref()
      modifies this
      ensures refCount == old(refCount) + 1 && destroyed == old(destroyed)
    {
      refCount := refCount + 1;
    }

    /** `fs_unref_fnode`: the node goes with its last reference. */
    method Unref()
      requires refCount > 0
      modifies this
      ensures refCount == old(refCount) - 1
      ensures destroyed == (old(destroyed) || refCount == 0)
    {
      refCount := refCount - 1;
      if refCount == 0 {
        destroyed := true;
      }
    }
  }

  /** The counted pointer `CustomRcPtr` over file nodes. */
  class FNodePtr {
    var ptr: FNode?

    constructor (p: FNode?)
      modifies p
      ensures ptr == p
      ensures p != null ==> p.refCount == old(p.refCount) + 1 && p.destroyed == old(p.destroyed)
    {
      ptr := p;
      new;
      if p != null {
        p.Ref();
      }
    }

    method Reset()
      requires ptr != null ==> ptr.refCount > 0
      modifies this, ptr
      ensures ptr == null
      ensures old(ptr) != null ==> old(ptr).refCount == old(ptr.refCount) - 1
      ensures old(ptr) != null ==> old(ptr).destroyed == (old(ptr.destroyed) || old(ptr.refCount) == 1)
    {
      if ptr != null {
        ptr.Unref();
      }
      ptr := null;
    }

    /** Assigning a node: the old one is let go first.  Assigning the node it already holds leaves the
        count as it was, but destroys the node if this was the only reference. */
    method Assign(p: FNode?)
      requires ptr != null ==> ptr.refCount > 0
      modifies this, ptr, p
      ensures ptr == p
      ensures p != null ==> p.refCount == old(p.refCount) + if old(ptr) == p then 0 else 1
      ensures p != null ==> p.destroyed == (old(p.destroyed) || (old(ptr) == p && old(p.refCount) == 1))
      ensures old(ptr) != null && old(ptr) != p ==>
        && old(ptr).refCount == old(ptr.refCount) - 1
        && old(ptr).destroyed == (old(ptr.destroyed) || old(ptr.refCount) == 1)
    {
      Reset();
      if p != null {
        p.Ref();
      }
      ptr := p;
    }

    /** Gives the reference away. */
    method Release() returns (p: FNode?)
      modifies this
      ensures p == old(ptr) && ptr == null
    {
      p := ptr;
      ptr := null;
    }
  }

  // ------------------------------------------------------------------ lookups

  /** What a name means in a node. */
  function Lookup(file: FNode, name: string): Result<FNode> {
    if file.kind != Dir then Err(Unsupported)
    else if name in file.subnodes then Ok(file.subnodes[name])
    else if name in file.backing then Ok(file.backing[name])
    else Err(FsFailed)
  }

  /** Looking names up one after the other. */
  function Fold(start: FNode?, names: seq<string>): Result<FNode?>
    decreases |names|
  {
    if names == [] then Ok(start)
    else if start == null then Err(NotFound)
    else
      match Lookup(start, names[0])
      case Ok(child) => Fold(child, names[1..])
      case Err(e) => Err(e)
  }

  lemma {:induction false} FoldAppend(start: FNode?, a: seq<string>, b: seq<string>)
    ensures Fold(start, a + b) == match Fold(start, a) { case Ok(mid) => Fold(mid, b) case Err(e) => Err(e) }
    decreases |a|
  {
    if a == [] {
      assert a + b == b;
    } else {
      assert (a + b)[1..] == a[1..] + b;
      if start != null {
        match Lookup(start, a[0])
        case Ok(child) => FoldAppend(child, a[1..], b);
        case Err(_) =>
      }
    }
  }

  /** What a path says before its first NUL. */
  function Text(path: string): (r: string)
    ensures r <= path && '\0' !in r && (|r| < |path| ==> path[|r|] == '\0')
  {
    if path == [] || path[0] == '\0' then [] else [path[0]] + Text(path[1..])
  }

  /** The length of the first piece without a slash. */
  function PieceLength(s: string): (n: nat)
    ensures n <= |s| && '/' !in s[..n] && (n < |s| ==> s[n] == '/')
  {
    if s == [] || s[0] == '/' then 0 else 1 + PieceLength(s[1..])
  }

  /** The names in a path: its longest pieces without slashes, the empty ones left out. */
  function Names(s: string): seq<string>
    decreases |s|
  {
    if s == [] then []
    else if s[0] == '/' then Names(s[1..])
    else [s[..PieceLength(s)]] + Names(s[PieceLength(s)..])
  }

  lemma PieceOf(s: string, n: nat)
    requires n <= |s| && '/' !in s[..n] && (n < |s| ==> s[n] == '/')
    ensures PieceLength(s) == n
  {
  }

  /** A slash separates: the names of both sides, in order. */
  lemma {:induction false} NamesSplit(a: string, b: string)
    ensures Names(a + "/" + b) == Names(a) + Names(b)
    decreases |a|
  {
    var s := a + "/" + b;
    if a == [] {
      assert s[1..] == b;
    } else if a[0] == '/' {
      NamesSplit(a[1..], b);
      assert s[1..] == a[1..] + "/" + b;
    } else {
      var n := PieceLength(a);
      assert s[..n] == a[..n] && s[n..] == a[n..] + "/" + b;
      PieceOf(s, n);
      if n < |a| {
        assert s[n] == a[n];
      }
      NamesSplit(a[n..], b);
    }
  }

  /** A piece without slashes is one name, or none when it is empty. */
  lemma NamesPiece(s: string)
    requires '/' !in s
    ensures Names(s) == if s == [] then [] else [s]
  {
    if s != [] {
      assert s[..|s|] == s;
      PieceOf(s, |s|);
    }
  }

  /** What a path means: its names looked up from the root if it starts with a slash, from the
      current directory otherwise.  An empty path means nothing, which is not an error. */
  function Resolved(root: FNode, cwd: FNode?, text: string): Result<FNode?> {
    if text == [] then Ok(null)
    else Fold(if text[0] == '/' then root else cwd, Names(text))
  }

  // ------------------------------------------------------------------ trails

  /** The name leads from a directory to a node: to the one linked under it, or where none is, to the one
      its file system finds. */
  predicate Leads(file: FNode, name: string, child: FNode) {
    && file.kind == Dir
    && if name in file.subnodes then child == file.subnodes[name]
       else name in file.backing && child == file.backing[name]
  }

  /** Nodes that the names lead through one after the other. */
  predicate Trail(nodes: seq<FNode>, names: seq<string>) {
    && |nodes| == |names| + 1
    && forall i :: 0 <= i < |names| ==> Leads(nodes[i], names[i], nodes[i + 1])
  }

  /** Looking names up follows a trail as far as there is one. */
  lemma {:induction false} FoldAlong(nodes: seq<FNode>, names: seq<string>, rest: seq<string>)
    requires Trail(nodes, names)
    ensures Fold(nodes[0], names + rest) == Fold(nodes[|names|], rest)
    decreases |names|
  {
    if names == [] {
      assert names + rest == rest;
    } else {
      assert Leads(nodes[0], names[0], nodes[1]);
      assert (names + rest)[0] == names[0] && (names + rest)[1..] == names[1..] + rest;
      FoldAlong(nodes[1..], names[1..], rest);
    }
  }

  lemma FoldEnds(file: FNode, rest: seq<string>)
    ensures rest == [] ==> Fold(file, rest) == Result<FNode?>.Ok(file)
    ensures rest != [] && file.kind != Dir ==> Fold(file, rest) == Err(Unsupported)
    ensures rest != [] && file.kind == Dir && rest[0] !in file.subnodes && rest[0] !in file.backing ==>
      Fold(file, rest) == Err(FsFailed)
  {
  }

  /** The longest trail of the names from a node: it ends with them, or at a node from which the next name
      leads nowhere. */
  lemma {:induction false} LongestTrail(start: FNode, names: seq<string>) returns (nodes: seq<FNode>, k: nat)
    ensures k <= |names| && Trail(nodes, names[..k]) && nodes[0] == start
    ensures k < |names| ==>
      nodes[k].kind != Dir || (names[k] !in nodes[k].subnodes && names[k] !in nodes[k].backing)
    decreases |names|
  {
    nodes, k := [start], 0;
    if names != [] && Lookup(start, names[0]).Ok? {
      var child := Lookup(start, names[0]).value;
      var rest, n := LongestTrail(child, names[1..]);
      nodes, k := [start] + rest, n + 1;
      assert names[..k] == [names[0]] + names[1..][..n];
      assert names[k..] == names[1..][n..];
    }
  }

  /** What a path that is not empty means, without a lookup function: the end of the trail of its names
      from its start.  Where the trail ends before the names do, the error says why: the node is no
      directory, or it is one and has no such name. */
  lemma ResolvesAlong(root: FNode, cwd: FNode?, text: string) returns (nodes: seq<FNode>, k: nat)
    requires text != [] && (text[0] == '/' || cwd != null)
    ensures k <= |Names(text)| && Trail(nodes, Names(text)[..k])
    ensures nodes[0] == if text[0] == '/' then root else cwd
    ensures Resolved(root, cwd, text) ==
      if k == |Names(text)| then Result<FNode?>.Ok(nodes[k])
      else if nodes[k].kind == Dir then Err(FsFailed)
      else Err(Unsupported)
  {
    hide Names;
    var names := Names(text);
    nodes, k := LongestTrail(if text[0] == '/' then root else cwd, names);
    assert names[..k] + names[k..] == names;
    FoldAlong(nodes, names[..k], names[k..]);
    FoldEnds(nodes[k], names[k..]);
  }

  /** From no directory there is no trail, and an empty path has no names to follow. */
  lemma ResolvesNowhere(root: FNode, text: string)
    requires text == [] || text[0] != '/'
    ensures Resolved(root, null, text) == if text == [] then Ok(null) else Err(NotFound)
  {
  }

  /** A name in the root directory and a name in what it leads to. */
  lemma TwoNames(root: FNode, cwd: FNode?, a: string, b: string, dir: FNode, file: FNode)
    requires a != [] && b != [] && '/' !in a && '/' !in b
    requires Leads(root, a, dir) && Leads(dir, b, file)
    ensures Resolved(root, cwd, "/" + a) == Result<FNode?>.Ok(dir)
    ensures Resolved(root, cwd, "/" + a + "/" + b) == Result<FNode?>.Ok(file)
  {
    hide Names, Fold, Leads;
    NamesPiece(a);
    NamesPiece(b);
    NamesPiece([]);
    NamesSplit([], a);
    NamesSplit("/" + a, b);
    assert [] + "/" + a == "/" + a && Names("/" + a) == [a];
    assert Names("/" + a + "/" + b) == [a, b];
    assert [a] + [] == [a] && [a, b] + [] == [a, b];
    assert ("/" + a)[0] == '/' && ("/" + a + "/" + b)[0] == '/';
    FoldAlong([root, dir], [a], []);
    FoldAlong([root, dir, file], [a, b], []);
    FoldEnds(dir, []);
    FoldEnds(file, []);
  }

  // ------------------------------------------------------------------ scanning

  /** `d` is just after the last slash before place i. */
  ghost predicate LastDivider(text: string, d: nat, i: nat) {
    d <= i <= |text| && '/' !in text[d..i] && (d > 0 ==> text[d - 1] == '/')
  }

  /** What the scan has in hand when its last divider is d: nothing looked up yet, or the meaning of
      the path up to there. */
  ghost predicate UpTo(root: FNode, cwd: FNode?, text: string, d: nat, file: FNode?, newFile: FNode?)
    requires d <= |text|
  {
    if d == 0 then file == cwd && newFile == null
    else newFile == file && file != null && Resolved(root, cwd, text[..d]) == Ok(file)
  }

  /** A slash at the end adds no name. */
  lemma NamesSlash(text: string, i: nat)
    requires i < |text| && text[i] == '/'
    ensures Names(text[..i + 1]) == Names(text[..i])
  {
    NamesSplit(text[..i], []);
    assert text[..i + 1] == text[..i] + "/" + [];
  }

  lemma Cut(text: string, d: nat, i: nat)
    requires 0 < d <= i <= |text| && text[d - 1] == '/'
    ensures text[..i] == text[..d - 1] + "/" + text[d..i]
  {
  }

  lemma NamesUpTo(text: string, d: nat, i: nat)
    requires LastDivider(text, d, i)
    ensures Names(text[..i]) == Names(text[..d]) + if d == i then [] else [text[d..i]]
  {
    hide Names;
    NamesPiece(text[d..i]);
    NamesPiece([]);
    if d == 0 {
      assert text[..i] == text[d..i] && text[..d] == [];
    } else {
      Cut(text, d, i);
      NamesSplit(text[..d - 1], text[d..i]);
      NamesSlash(text, d - 1);
    }
  }

  /** An error in a path up to a slash is the error of the whole path. */
  lemma ErrorStays(root: FNode, cwd: FNode?, text: string, i: nat)
    requires 0 < i <= |text| && (i < |text| ==> text[i] == '/') && Resolved(root, cwd, text[..i]).Err?
    ensures Resolved(root, cwd, text) == Resolved(root, cwd, text[..i])
  {
    if i < |text| {
      NamesSplit(text[..i], text[i + 1..]);
      assert text == text[..i] + "/" + text[i + 1..];
      FoldAppend(if text[0] == '/' then root else cwd, Names(text[..i]), Names(text[i + 1..]));
    } else {
      assert text[..i] == text;
    }
  }

  /** Looking up one more piece extends the meaning of the path by it. */
  lemma PieceStep(root: FNode, cwd: FNode?, text: string, d: nat, i: nat, file: FNode?, newFile: FNode?)
    requires LastDivider(text, d, i) && d < i && UpTo(root, cwd, text, d, file, newFile)
    ensures Resolved(root, cwd, text[..i]) == Fold(file, [text[d..i]])
  {
    var start := if text[0] == '/' then root else cwd;
    NamesUpTo(text, d, i);
    FoldAppend(start, Names(text[..d]), [text[d..i]]);
    if d == 0 {
      assert text[d..i][0] == text[0];
    }
  }

  /** A slash after place i leaves the meaning as it is; the first one makes it the root. */
  lemma SlashStep(root: FNode, cwd: FNode?, text: string, i: nat)
    requires i < |text| && text[i] == '/'
    ensures Resolved(root, cwd, text[..i + 1]) == if i == 0 then Ok(root) else Resolved(root, cwd, text[..i])
  {
    NamesSlash(text, i);
  }

  /** Resolving a longer path is resolving its beginning and then the rest from there. */
  lemma ResolveInTwo(root: FNode, cwd: FNode?, a: string, b: string)
    requires a != [] && b != [] && b[0] != '/'
    ensures Resolved(root, cwd, a + "/" + b) ==
      match Resolved(root, cwd, a) { case Ok(mid) => Resolved(root, mid, b) case Err(e) => Err(e) }
  {
    NamesSplit(a, b);
    assert (a + "/" + b)[0] == a[0];
    FoldAppend(if a[0] == '/' then root else cwd, Names(a), Names(b));
  }

  /** Repeated and trailing slashes mean nothing. */
  lemma ExtraSlashes(root: FNode, cwd: FNode?, a: string, b: string)
    requires a != []
    ensures Resolved(root, cwd, a + "/" + ("/" + b)) == Resolved(root, cwd, a + "/" + b)
    ensures Resolved(root, cwd, a + "/") == Resolved(root, cwd, a)
  {
    NamesSplit(a, b);
    NamesSplit(a, "/" + b);
    NamesSplit([], b);
    assert [] + "/" + b == "/" + b;
    NamesSplit(a, []);
    assert a + "/" + [] == a + "/" && Names(a) + Names([]) == Names(a);
    assert (a + "/" + b)[0] == a[0] && (a + "/" + ("/" + b))[0] == a[0] && (a + "/")[0] == a[0];
  }

  // ------------------------------------------------------------------ resolving

  /** Nodes that are closed under lookup. */
  ghost predicate Closed(nodes: set<FNode>) {
    forall f <- nodes ::
      && (forall name <- f.subnodes :: f.subnodes[name] in nodes)
      && (forall name <- f.backing :: f.backing[name] in nodes)
  }

  /** The nodes are alive, and beyond their base counts only the given pointers hold references. */
  ghost predicate Counted(nodes: set<FNode>, base: map<FNode, nat>, a: FNode?, b: FNode?)
    reads nodes
  {
    && (a != null ==> a in nodes) && (b != null ==> b in nodes)
    && forall n <- nodes ::
         && n in base && base[n] > 0 && !n.destroyed
         && n.refCount == base[n] + (if a == n then 1 else 0) + (if b == n then 1 else 0)
  }

  /** `fs_child_of` into a pointer that holds nothing. */
  method ChildOf(file: FNode?, name: string, out: FNodePtr, ghost nodes: set<FNode>, ghost base: map<FNode, nat>)
    returns (r: Result<FNode?>)
    requires Closed(nodes) && Counted(nodes, base, file, null) && out.ptr == null
    modifies out, nodes
    ensures file == null ==> r == Err(NotFound)
    ensures file != null && file.kind != Dir ==> r == Err(Unsupported)
    ensures file != null && file.kind == Dir && name in file.subnodes ==>
      r == Result<FNode?>.Ok(file.subnodes[name])
    ensures file != null && file.kind == Dir && name !in file.subnodes ==>
      r == if name in file.backing then Result<FNode?>.Ok(file.backing[name]) else Err(FsFailed)
    ensures r == Fold(file, [name])
    ensures Counted(nodes, base, file, out.ptr) && out.ptr == if r.Ok? then r.value else null
  {
    if file == null {
      return Err(NotFound);
    }
    match file.kind
    case Dir =>
      if name in file.subnodes {
        var node := file.subnodes[name];
        var held := new FNodePtr(node);
        out.ptr := node;
        node.Ref();
        held.Reset();
        return Ok(node);
      } else if name in file.backing {
        var node := file.backing[name];
        node.Ref();
        out.ptr := node;
        return Ok(node);
      }
      return Err(FsFailed);
    case Link =>
      return Err(Unsupported);
    case File =>
      return Err(Unsupported);
  }

  /** Looking a piece up from `file` into `newFile`, which lets go of its node first.  On failure both
      pointers are let go, as their destructors do. */
  method Enter(name: string, file: FNodePtr, newFile: FNodePtr, ghost nodes: set<FNode>, ghost base: map<FNode, nat>)
    returns (r: Result<FNode?>)
    requires Closed(nodes) && Counted(nodes, base, file.ptr, newFile.ptr) && file != newFile
    modifies file, newFile, nodes
    ensures r == Fold(old(file.ptr), [name])
    ensures r.Ok? ==> file.ptr == old(file.ptr) && newFile.ptr == r.value && r.value != null
    ensures r.Err? ==> file.ptr == null && newFile.ptr == null
    ensures Counted(nodes, base, file.ptr, newFile.ptr)
  {
    if file.ptr == null {
      newFile.Reset();
      return Err(NotFound);
    }
    newFile.Reset();
    r := ChildOf(file.ptr, name, newFile, nodes, base);
    if r.Err? {
      file.Reset();
    }
  }

  /** What the scan does at a slash. */
  method Divide(root: FNode, cwd: FNode?, text: string, d: nat, i: nat, file: FNodePtr, newFile: FNodePtr,
                ghost nodes: set<FNode>, ghost base: map<FNode, nat>)
    returns (r: Result<FNode?>)
    requires LastDivider(text, d, i) && i < |text| && text[i] == '/'
    requires Closed(nodes) && root in nodes && Counted(nodes, base, file.ptr, newFile.ptr) && file != newFile
    requires UpTo(root, cwd, text, d, file.ptr, newFile.ptr)
    modifies file, newFile, nodes
    ensures Counted(nodes, base, file.ptr, newFile.ptr)
    ensures r.Ok? ==> UpTo(root, cwd, text, i + 1, file.ptr, newFile.ptr)
    ensures r.Err? ==> r == Resolved(root, cwd, text) && file.ptr == null && newFile.ptr == null
  {
    hide Names, Fold, Resolved;
    SlashStep(root, cwd, text, i);
    if d == i {
      if d == 0 {
        newFile.Assign(root);
      }
    } else {
      PieceStep(root, cwd, text, d, i, file.ptr, newFile.ptr);
      r := Enter(text[d..i], file, newFile, nodes, base);
      if r.Err? {
        ErrorStays(root, cwd, text, i);
        return;
      }
    }
    file.Assign(newFile.ptr);
    r := Ok(null);
  }

  /** The end of the scan: the last piece, and the result released to the caller. */
  method Finish(root: FNode, cwd: FNode?, text: string, d: nat, file: FNodePtr, newFile: FNodePtr,
                ghost nodes: set<FNode>, ghost base: map<FNode, nat>)
    returns (r: Result<FNode?>)
    requires LastDivider(text, d, |text|)
    requires Closed(nodes) && Counted(nodes, base, file.ptr, newFile.ptr) && file != newFile
    requires UpTo(root, cwd, text, d, file.ptr, newFile.ptr)
    modifies file, newFile, nodes
    ensures r == Resolved(root, cwd, text) && file.ptr == null && newFile.ptr == null
    ensures Counted(nodes, base, if r.Ok? then r.value else null, null)
  {
    hide Names, Fold;
    assert text[..|text|] == text;
    if d < |text| {
      PieceStep(root, cwd, text, d, |text|, file.ptr, newFile.ptr);
      r := Enter(text[d..], file, newFile, nodes, base);
      assert text[d..] == text[d..|text|];
      if r.Err? {
        return;
      }
    }
    var out := newFile.Release();
    file.Reset();
    r := Ok(out);
  }

  lemma ScanStart(root: FNode, cwd: FNode?, text: string)
    ensures LastDivider(text, 0, 0) && UpTo(root, cwd, text, 0, cwd, null)
  {
  }

  lemma ScanStep(text: string, d: nat, i: nat)
    requires LastDivider(text, d, i) && i < |text|
    ensures d <= i && LastDivider(text, if text[i] == '/' then i + 1 else d, i + 1)
  {
  }

  /** `fs_resolve_path`: the meaning of the path, with one more reference to the node it means when
      there is one, and no other count changed; no node is destroyed on the way. */
  method Resolve(root: FNode, cwd: FNode?, path: string, ghost nodes: set<FNode>) returns (r: Result<FNode?>)
    requires Closed(nodes) && root in nodes && (cwd != null ==> cwd in nodes)
    requires forall n <- nodes :: n.refCount > 0 && !n.destroyed
    modifies nodes
    ensures r == Resolved(root, cwd, Text(path))
    ensures forall n <- nodes :: !n.destroyed
    ensures forall n <- nodes :: n.refCount == old(n.refCount) + if r.Ok? && r.value == n then 1 else 0
  {
    hide Names, Fold, Resolved, LastDivider, UpTo;
    ghost var base := map n | n in nodes :: n.refCount;
    var text := Text(path);
    var file := new FNodePtr(cwd);
    var newFile := new FNodePtr(null);
    var i, lastDivider := 0, 0;
    ScanStart(root, cwd, text);
    while i < |path| && path[i] != '\0'
      invariant lastDivider <= i <= |text| && LastDivider(text, lastDivider, i)
      invariant fresh(file) && fresh(newFile) && file != newFile
      invariant Counted(nodes, base, file.ptr, newFile.ptr)
      invariant UpTo(root, cwd, text, lastDivider, file.ptr, newFile.ptr)
    {
      ScanStep(text, lastDivider, i);
      if path[i] == '/' {
        r := Divide(root, cwd, text, lastDivider, i, file, newFile, nodes, base);
        if r.Err? {
          return;
        }
        lastDivider := i + 1;
      }
      i := i + 1;
    }
    r := Finish(root, cwd, text, lastDivider, file, newFile, nodes, base);
  }
}
