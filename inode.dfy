/**
 * The in-memory file system of asg1/inode.cpp. Inodes live in a table
 * from inode number to node instead of behind pointers: a directory maps
 * names to inode numbers and always holds "." (itself) and ".." (its
 * parent); a file holds a vector of words. Numbers come from a counter that
 * starts at 1 and grows by one for every inode made.
 */
module Inodes {
  import opened Outcomes
  import opened Words

  datatype Node =
    | Dir(name: string, entries: map<string, nat>)
    | File(name: string, data: seq<string>)

  /** The entries of a directory just made: "." is itself and ".." its parent. */
  function Links(self: nat, parent: nat): map<string, nat>
  {
    map["." := self, ".." := parent]
  }

  /**
   * How a shell operation ends: normally, with a yshell_exn carrying its
   * message, or through a fault the shell does not catch (a failed
   * assert, a std::out_of_range, a null dereference).
   */
  datatype Status = Ok | Error(message: string) | Fault(what: string)

  /** Where a path leads: an inode, nowhere (a missing name), or through a file. */
  datatype PathResult = Found(nr: nat) | Missing | InvalidPath

  /** Every directory entry names an inode of the table. */
  predicate Closed(nodes: map<nat, Node>)
  {
    forall n, k :: n in nodes && nodes[n].Dir? && k in nodes[n].entries ==> nodes[n].entries[k] in nodes
  }

  /**
   * A directory's "." is itself and its ".." a directory; the root is its
   * own parent, and every other directory was made after its parent, so
   * following ".." always reaches the root.
   */
  predicate DirOk(nodes: map<nat, Node>, root: nat, n: nat)
    requires n in nodes
  {
    nodes[n].Dir? ==>
      var e := nodes[n].entries;
      "." in e && e["."] == n && ".." in e && e[".."] in nodes && nodes[e[".."]].Dir? &&
      (if n == root then e[".."] == root else e[".."] < n)
  }

  predicate TreeOk(nodes: map<nat, Node>, root: nat, next: nat)
  {
    root in nodes && nodes[root].Dir? && Closed(nodes) &&
    (forall n :: n in nodes ==> 0 < n < next) &&
    // instantiated only where a directory's shape is asked for, so that
    // the chain of parents is not unfolded without end
    forall n {:trigger DirOk(nodes, root, n)} :: n in nodes ==> DirOk(nodes, root, n)
  }

  /**
   * The walk of inode_from_path from inode `cur` along path components:
   * every step must start from a directory (otherwise "invalid path") and
   * name one of its entries (otherwise the null result).
   */
  function Walk(nodes: map<nat, Node>, cur: nat, comps: seq<string>): (r: PathResult)
    requires Closed(nodes) && cur in nodes
    ensures r.Found? ==> r.nr in nodes
    decreases |comps|
  {
    if comps == [] then Found(cur)
    else if nodes[cur].File? then InvalidPath
    else if comps[0] !in nodes[cur].entries then Missing
    else Walk(nodes, nodes[cur].entries[comps[0]], comps[1..])
  }

  /** Walking a longer path is walking its first part, then the rest from where that ended. */
  lemma {:induction false} WalkAppend(nodes: map<nat, Node>, cur: nat, a: seq<string>, b: seq<string>)
    requires Closed(nodes) && cur in nodes
    ensures Walk(nodes, cur, a + b) ==
      (if Walk(nodes, cur, a).Found? then Walk(nodes, Walk(nodes, cur, a).nr, b) else Walk(nodes, cur, a))
    decreases |a|
  {
    if a == [] {
      assert a + b == b;
    } else {
      assert (a + b)[0] == a[0] && (a + b)[1..] == a[1..] + b;
      if nodes[cur].Dir? && a[0] in nodes[cur].entries {
        WalkAppend(nodes, nodes[cur].entries[a[0]], a[1..], b);
      }
    }
  }

  /** One step of a walk. */
  lemma WalkStep(nodes: map<nat, Node>, n: nat, name: string)
    requires Closed(nodes) && n in nodes
    ensures Walk(nodes, n, [name]) ==
      if nodes[n].File? then InvalidPath
      else if name !in nodes[n].entries then Missing
      else Found(nodes[n].entries[name])
  {
    assert [name][1..] == [];
  }

  lemma WalkOne(nodes: map<nat, Node>, n: nat, name: string)
    requires Closed(nodes) && n in nodes && nodes[n].Dir? && name in nodes[n].entries
    ensures Walk(nodes, n, [name]) == Found(nodes[n].entries[name])
  {
    assert [name][1..] == [];
  }

  /** "." stays in a directory and ".." goes to its parent. */
  lemma WalkDots(nodes: map<nat, Node>, root: nat, next: nat, n: nat, rest: seq<string>)
    requires TreeOk(nodes, root, next) && n in nodes && nodes[n].Dir?
    ensures DirOk(nodes, root, n)
    ensures Walk(nodes, n, ["."] + rest) == Walk(nodes, n, rest)
    ensures Walk(nodes, n, [".."] + rest) == Walk(nodes, nodes[n].entries[".."], rest)
  {
    assert DirOk(nodes, root, n);
    assert (["."] + rest)[1..] == rest && ([".."] + rest)[1..] == rest;
  }

  /**
   * Every inode of `small` is in `big` with the same kind, and every
   * directory entry of `small` is in `big` with the same target.
   */
  predicate Extends(small: map<nat, Node>, big: map<nat, Node>)
  {
    forall n :: n in small ==>
      n in big && big[n].Dir? == small[n].Dir? &&
      (small[n].Dir? ==> forall k :: k in small[n].entries ==> k in big[n].entries && big[n].entries[k] == small[n].entries[k])
  }

  /** A path that leads somewhere leads to the same place once entries have only been added. */
  lemma {:induction false} WalkExtends(small: map<nat, Node>, big: map<nat, Node>, cur: nat, comps: seq<string>)
    requires Closed(small) && Closed(big) && cur in small && Extends(small, big)
    ensures Walk(small, cur, comps).Found? ==> Walk(big, cur, comps) == Walk(small, cur, comps)
    decreases |comps|
  {
    if comps != [] && small[cur].Dir? && comps[0] in small[cur].entries {
      WalkExtends(small, big, small[cur].entries[comps[0]], comps[1..]);
    }
  }

  /** Making an inode and linking it adds entries only. */
  lemma LinkExtends(nodes: map<nat, Node>, next: nat, parent: nat, name: string, node: Node, m: map<nat, Node>)
    requires parent in nodes && nodes[parent].Dir? && next !in nodes
    requires m == nodes[next := node][parent := Link(nodes[parent], name, next)]
    ensures Extends(nodes, m)
  {
    forall n | n in nodes
      ensures n in m && m[n].Dir? == nodes[n].Dir?
      ensures nodes[n].Dir? ==> forall k :: k in nodes[n].entries ==> k in m[n].entries && m[n].entries[k] == nodes[n].entries[k]
    {
      if n != parent {
        assert m[n] == nodes[n];
      }
    }
  }

  /** Replacing one inode by one of the same kind with at least its entries adds entries only. */
  lemma ReplaceExtends(nodes: map<nat, Node>, n: nat, node: Node, m: map<nat, Node>)
    requires n in nodes && node.Dir? == nodes[n].Dir? && m == nodes[n := node]
    requires node.Dir? ==> forall k :: k in nodes[n].entries ==> k in node.entries && node.entries[k] == nodes[n].entries[k]
    ensures Extends(nodes, m)
  {
  }

  lemma ExtendsItself(nodes: map<nat, Node>)
    ensures Extends(nodes, nodes)
  {
  }

  /**
   * Dropping an entry other than "." and ".." from a directory keeps the
   * tree well formed, removes entries only, and the name then leads nowhere.
   */
  lemma UnlinkKeepsTree(nodes: map<nat, Node>, root: nat, next: nat, dir: nat, name: string, m: map<nat, Node>)
    requires TreeOk(nodes, root, next) && dir in nodes && nodes[dir].Dir? && name != "." && name != ".."
    requires m == nodes[dir := nodes[dir].(entries := nodes[dir].entries - {name})]
    ensures TreeOk(m, root, next) && Extends(m, nodes)
    ensures Walk(m, dir, [name]) == Missing
  {
    ReplaceExtends(m, dir, nodes[dir], nodes);
    forall n | n in m
      ensures DirOk(m, root, n)
    {
      assert DirOk(nodes, root, n);
    }
    assert [name][1..] == [];
  }

  /** Replacing a file's words keeps the tree well formed and changes no directory. */
  lemma RewriteKeepsTree(nodes: map<nat, Node>, root: nat, next: nat, nr: nat, words: seq<string>)
    requires TreeOk(nodes, root, next) && nr in nodes && nodes[nr].File?
    ensures var m := nodes[nr := nodes[nr].(data := words)];
      TreeOk(m, root, next) && Extends(nodes, m) && m[nr].Dir? == nodes[nr].Dir?
  {
    var m := nodes[nr := nodes[nr].(data := words)];
    ReplaceExtends(nodes, nr, m[nr], m);
    forall n | n in m
      ensures DirOk(m, root, n)
    {
      assert DirOk(nodes, root, n);
    }
  }

  /** Inserting into a std::map: an existing entry is kept, a new name is added. */
  function Link(node: Node, name: string, nr: nat): (r: Node)
    requires node.Dir?
    ensures r.Dir? && r.name == node.name && name in r.entries
    ensures r.entries[name] == if name in node.entries then node.entries[name] else nr
    ensures forall k :: k != name ==> (k in r.entries <==> k in node.entries)
    ensures forall k :: k in node.entries ==> r.entries[k] == node.entries[k]
  {
    if name in node.entries then node else node.(entries := node.entries[name := nr])
  }

  /**
   * Making inode `next` (a file, or a directory whose "." is itself and
   * whose ".." is the parent) and linking it into the parent keeps the tree
   * well formed, with the counter one higher.
   */
  lemma LinkKeepsTree(nodes: map<nat, Node>, root: nat, next: nat, parent: nat, name: string, node: Node,
                      m: map<nat, Node>)
    requires TreeOk(nodes, root, next) && parent in nodes && nodes[parent].Dir?
    requires node.File? || node.entries == Links(next, parent)
    requires m == nodes[next := node][parent := Link(nodes[parent], name, next)]
    ensures TreeOk(m, root, next + 1)
  {
    assert next !in nodes;
    forall n, k | n in m && m[n].Dir? && k in m[n].entries
      ensures m[n].entries[k] in m
    {
      if n != next && n != parent {
        assert m[n] == nodes[n];
      }
    }
    forall n | n in m
      ensures 0 < n < next + 1 && DirOk(m, root, n)
    {
      if n != next {
        assert DirOk(nodes, root, n);
        if n != parent {
          assert m[n] == nodes[n];
        }
      }
    }
  }

  /** After the linking, the name leads from the parent to the new inode, and its "." and ".." lead back. */
  lemma LinkWalks(nodes: map<nat, Node>, next: nat, parent: nat, name: string, node: Node, m: map<nat, Node>)
    requires parent in nodes && nodes[parent].Dir? && next != parent && Closed(m)
    requires node.File? || node.entries == Links(next, parent)
    requires m == nodes[next := node][parent := Link(nodes[parent], name, next)]
    ensures name !in nodes[parent].entries ==> Walk(m, parent, [name]) == Found(next)
    ensures node.Dir? ==> Walk(m, next, ["."]) == Found(next) && Walk(m, next, [".."]) == Found(parent)
  {
    if name !in nodes[parent].entries {
      WalkOne(m, parent, name);
    }
    if node.Dir? {
      WalkOne(m, next, ".");
      WalkOne(m, next, "..");
    }
  }

  class InodeState {
    var nodes: map<nat, Node>
    var root: nat
    var cwd: nat
    var prompt: string
    /** inode::next_inode_nr, the number the next inode made gets. */
    var nextInodeNr: nat

    predicate Valid()
      reads this
    {
      TreeOk(nodes, root, nextInodeNr) && cwd in nodes && nodes[cwd].Dir?
    }

    /**
     * inode_state (inode.cpp:176-184): the first inode is the root
     * directory, whose "." and ".." are both itself, and it is the cwd.
     * The source's constructor takes no argument: the prompt starts from
     * the member's default in inode.h, which is not part of this model, so
     * that first prompt is a parameter here.
     */
    constructor (initialPrompt: string)
      ensures Valid()
      ensures root == 1 && cwd == root && nextInodeNr == 2 && prompt == initialPrompt
      ensures nodes == map[1 := Dir("", Links(1, 1))]
    {
      var nr := 1;
      nextInodeNr := nr + 1;
      nodes := map[nr := Dir("", Links(nr, nr))];
      root := nr;
      cwd := nr;
      prompt := initialPrompt;
    }

    /** The inode constructor (inode.cpp:14-15): a new inode takes the counter's value, which then grows. */
    method Allocate(node: Node) returns (nr: nat)
      requires nextInodeNr > 0
      modifies this
      ensures nr == old(nextInodeNr) && nextInodeNr == nr + 1
      ensures nodes == old(nodes)[nr := node]
      ensures root == old(root) && cwd == old(cwd) && prompt == old(prompt)
    {
      nr := nextInodeNr;
      nextInodeNr := nextInodeNr + 1;
      nodes := nodes[nr := node];
    }

    /**
     * inode::mkdir (inode.cpp:138-146): a new directory whose "." is itself
     * and whose ".." is the parent, linked into the parent under dirname
     * unless that name is already taken there.
     */
    method MakeDir(parent: nat, dirname: string) returns (nr: nat)
      requires Valid() && parent in nodes && nodes[parent].Dir?
      modifies this
      ensures Valid()
      ensures nr == old(nextInodeNr) && nextInodeNr == old(nextInodeNr) + 1 && nr !in old(nodes)
      ensures nodes == old(nodes)[nr := Dir(dirname, Links(nr, parent))]
                                 [parent := Link(old(nodes)[parent], dirname, nr)]
      ensures root == old(root) && cwd == old(cwd) && prompt == old(prompt)
      ensures Extends(old(nodes), nodes)
      ensures dirname !in old(nodes)[parent].entries ==> Walk(nodes, parent, [dirname]) == Found(nr)
      ensures Walk(nodes, nr, ["."]) == Found(nr) && Walk(nodes, nr, [".."]) == Found(parent)
    {
      var before := nodes;
      nr := Allocate(Dir("", map[]));
      nodes := before[nr := Dir(dirname, Links(nr, parent))][parent := Link(before[parent], dirname, nr)];
      LinkKeepsTree(before, root, nr, parent, dirname, Dir(dirname, Links(nr, parent)), nodes);
      LinkWalks(before, nr, parent, dirname, Dir(dirname, Links(nr, parent)), nodes);
      LinkExtends(before, nr, parent, dirname, Dir(dirname, Links(nr, parent)), nodes);
    }

    /**
     * inode::mkfile (inode.cpp:148-154): a new empty file linked into the
     * parent under filename unless that name is already taken there.
     */
    method MakeFile(parent: nat, filename: string) returns (nr: nat)
      requires Valid() && parent in nodes && nodes[parent].Dir?
      modifies this
      ensures Valid()
      ensures nr == old(nextInodeNr) && nextInodeNr == old(nextInodeNr) + 1 && nr !in old(nodes)
      ensures nodes == old(nodes)[nr := File(filename, [])][parent := Link(old(nodes)[parent], filename, nr)]
      ensures root == old(root) && cwd == old(cwd) && prompt == old(prompt)
      ensures Extends(old(nodes), nodes)
      ensures filename !in old(nodes)[parent].entries ==> Walk(nodes, parent, [filename]) == Found(nr)
    {
      var before := nodes;
      nr := Allocate(File("", []));
      nodes := before[nr := File(filename, [])][parent := Link(before[parent], filename, nr)];
      LinkKeepsTree(before, root, nr, parent, filename, File(filename, []), nodes);
      LinkWalks(before, nr, parent, filename, File(filename, []), nodes);
      LinkExtends(before, nr, parent, filename, File(filename, []), nodes);
    }

    /** inode::readfile (inode.cpp:105-111): the words of a file; a directory is an error. */
    function ReadFile(nr: nat): (r: Result<seq<string>, string>)
      reads this
      requires nr in nodes
      ensures r.Success? <==> nodes[nr].File?
      ensures r.Success? ==> r.value == nodes[nr].data
    {
      match nodes[nr]
      case File(_, data) => Success(data)
      case Dir(_, _) => Failure("readfile called on DIR_INODE")
    }

    /**
     * inode::writefile (inode.cpp:113-120): replaces a file's words by
     * exactly the given ones, so that reading it back gives them; a
     * directory is an error and changes nothing.
     */
    method WriteFile(nr: nat, words: seq<string>) returns (r: Status)
      requires Valid() && nr in nodes
      modifies this
      ensures Valid()
      ensures old(nodes[nr]).Dir? ==> r == Error("writefile called on DIR_INODE") && nodes == old(nodes)
      ensures old(nodes[nr]).File? ==>
        r == Ok && nodes == old(nodes)[nr := File(old(nodes[nr]).name, words)] &&
        ReadFile(nr) == Success(words)
      ensures Extends(old(nodes), nodes)
      ensures root == old(root) && cwd == old(cwd) && prompt == old(prompt) && nextInodeNr == old(nextInodeNr)
    {
      if !nodes[nr].File? {
        return Error("writefile called on DIR_INODE");
      }
      RewriteKeepsTree(nodes, root, nextInodeNr, nr, words);
      nodes := nodes[nr := nodes[nr].(data := words)];
      r := Ok;
    }

    /**
     * inode::remove (inode.cpp:122-136): drops one entry of a directory.
     * A missing name is an error, and so are ".", ".." and "/"; nothing
     * else changes. The unlinked inodes stay in the table.
     */
    method Remove(dir: nat, filename: string) returns (r: Status)
      requires Valid() && dir in nodes
      modifies this
      ensures Valid()
      ensures r == if old(nodes[dir]).File? then Fault("assert type == DIR_INODE")
                   else if filename !in old(nodes[dir]).entries then Error("remove: no such inode")
                   else if filename == "." || filename == ".." || filename == "/"
                   then Error("remove: can't remove . or .. or /")
                   else Ok
      ensures r.Ok? ==> nodes == old(nodes)[dir := old(nodes[dir]).(entries := old(nodes[dir]).entries - {filename})]
      ensures r.Ok? ==> Walk(nodes, dir, [filename]) == Missing
      ensures Extends(nodes, old(nodes))
      ensures !r.Ok? ==> nodes == old(nodes)
      ensures root == old(root) && cwd == old(cwd) && prompt == old(prompt) && nextInodeNr == old(nextInodeNr)
    {
      ExtendsItself(nodes);
      if !nodes[dir].Dir? {
        return Fault("assert type == DIR_INODE");
      }
      if filename !in nodes[dir].entries {
        return Error("remove: no such inode");
      }
      if filename == "." || filename == ".." || filename == "/" {
        return Error("remove: can't remove . or .. or /");
      }
      var before := nodes;
      nodes := before[dir := before[dir].(entries := before[dir].entries - {filename})];
      UnlinkKeepsTree(before, root, nextInodeNr, dir, filename, nodes);
      r := Ok;
    }

    /**
     * inode::size (inode.cpp:78-98): for a file, one more than each word's
     * length summed, less one, which is the length of its words joined by
     * single spaces (and -1 for an empty file); for a directory, its number
     * of entries, "." and ".." included.
     */
    method Size(nr: nat) returns (size: int)
      requires nr in nodes
      ensures nodes[nr].File? ==> size == if nodes[nr].data == [] then -1 else |Join(nodes[nr].data)|
      ensures nodes[nr].Dir? ==> size == |nodes[nr].entries|
    {
      size := 0;
      if nodes[nr].File? {
        var data := nodes[nr].data;
        var i := 0;
        while i < |data|
          invariant 0 <= i <= |data|
          invariant size == if i == 0 then 0 else |Join(data[..i])| + 1
        {
          assert data[..i + 1][..i] == data[..i];
          size := size + 1;
          size := size + |data[i]|;
          i := i + 1;
        }
        assert data[..i] == data;
        size := size - 1;
      } else {
        size := size + |nodes[nr].entries|;
      }
    }

    /**
     * inode::get_parent (inode.cpp:161-169): nothing for a file; for a
     * directory its ".." entry, a directory made before it unless it is the root.
     */
    function GetParent(nr: nat): (r: Option<nat>)
      reads this
      requires Valid() && nr in nodes
      ensures r.None? <==> nodes[nr].File?
      ensures r.Some? ==> r.value in nodes && nodes[r.value].Dir? && Walk(nodes, nr, [".."]) == Found(r.value)
      ensures r.Some? ==> if nr == root then r.value == root else r.value < nr
    {
      assert DirOk(nodes, root, nr);
      assert [".."][1..] == [];
      if nodes[nr].File? then None else Some(nodes[nr].entries[".."])
    }

    /** Where a path leads: from the root when it starts with '/', otherwise from the cwd. */
    function Resolve(path: string): PathResult
      reads this
      requires Valid() && |path| > 0
    {
      Walk(nodes, if path[0] == '/' then root else cwd, Tokens(path, {'/'}))
    }

    /**
     * inode_state::inode_from_path (inode.cpp:228-248): splits the path
     * at '/' and follows the names one by one from the root or the cwd.
     */
    method InodeFromPath(path: string) returns (r: PathResult)
      requires Valid() && |path| > 0
      ensures r == Resolve(path)
      ensures r.Found? ==> r.nr in nodes
    {
      var dirs := Split(path, {'/'});
      var curr := cwd;
      if path[0] == '/' {
        curr := root;
      }
      ghost var start := curr;
      var i := 0;
      while i < |dirs|
        invariant 0 <= i <= |dirs| && curr in nodes
        invariant Walk(nodes, start, dirs) == Walk(nodes, curr, dirs[i..])
      {
        assert dirs[i..][0] == dirs[i] && dirs[i..][1..] == dirs[i + 1..];
        if !nodes[curr].Dir? {
          return InvalidPath;
        }
        if dirs[i] !in nodes[curr].entries {
          return Missing;
        }
        curr := nodes[curr].entries[dirs[i]];
        i := i + 1;
      }
      return Found(curr);
    }

    /** inode_state::set_cwd. */
    method SetCwd(c: nat)
      requires Valid() && c in nodes && nodes[c].Dir?
      modifies this
      ensures Valid() && cwd == c
      ensures nodes == old(nodes) && root == old(root) && prompt == old(prompt) && nextInodeNr == old(nextInodeNr)
    {
      cwd := c;
    }

    /** inode_state::set_prompt. */
    method SetPrompt(p: string)
      requires Valid()
      modifies this
      ensures Valid() && prompt == p
      ensures nodes == old(nodes) && root == old(root) && cwd == old(cwd) && nextInodeNr == old(nextInodeNr)
    {
      prompt := p;
    }
  }
}
