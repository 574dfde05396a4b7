/** A file system as a map from paths to bytes, and the single changes that lead from one state to the next. */
module Journal {
  import opened Bytes

  type Path = string
  type Files = map<Path, seq<byte>>

  datatype Change =
    | Create(path: Path)
    | Write(path: Path, at: nat, data: seq<byte>)
    | Unlink(path: Path)
    | Rename(path: Path, to: Path)

  predicate Enabled(files: Files, c: Change) {
    match c
    case Create(path) => path !in files
    case Write(path, _, _) => path in files
    case Unlink(path) => path in files
    case Rename(path, to) => path in files && path != to
  }

  function Apply(files: Files, c: Change): Files
    requires Enabled(files, c)
  {
    match c
    case Create(path) => files[path := []]
    case Write(path, at, data) => files[path := WriteAt(files[path], at, data)]
    case Unlink(path) => files - {path}
    case Rename(path, to) => (files - {path})[to := files[path]]
  }

  /** The state after a sequence of changes, if each of them is possible when its turn comes. */
  function Replay(files: Files, changes: seq<Change>): Option<Files> {
    if changes == [] then Some(files)
    else
      var last := changes[|changes| - 1];
      match Replay(files, changes[..|changes| - 1])
      case None => None
      case Some(m) => if Enabled(m, last) then Some(Apply(m, last)) else None
  }

  /** The changes lead from one state to the other, one step at a time. */
  predicate Leads(a: Files, changes: seq<Change>, b: Files) {
    Replay(a, changes) == Some(b)
  }

  lemma LeadsOn(a: Files, changes: seq<Change>, b: Files, c: Change)
    requires Leads(a, changes, b) && Enabled(b, c)
    ensures Leads(a, changes + [c], Apply(b, c))
  {
    assert (changes + [c])[..|changes|] == changes;
  }

  lemma {:induction false} LeadsThrough(a: Files, first: seq<Change>, b: Files, second: seq<Change>, c: Files)
    requires Leads(a, first, b) && Leads(b, second, c)
    ensures Leads(a, first + second, c)
  {
    if second == [] {
      assert first + second == first;
    } else {
      var n := |second| - 1;
      LeadsThrough(a, first, b, second[..n], Replay(b, second[..n]).value);
      assert (first + second)[..|first| + n] == first + second[..n];
    }
  }

  /** Every state on the way exists. */
  lemma {:induction false} OnTheWay(a: Files, changes: seq<Change>, b: Files, n: nat)
    requires Leads(a, changes, b) && n <= |changes|
    ensures Replay(a, changes[..n]).Some?
    decreases |changes|
  {
    if n == |changes| {
      assert changes[..n] == changes;
    } else {
      var init := changes[..|changes| - 1];
      OnTheWay(a, init, Replay(a, init).value, n);
      assert init[..n] == changes[..n];
    }
  }

  /** The changes create, write or remove one file and no other. */
  predicate AllAbout(changes: seq<Change>, path: Path) {
    forall c <- changes :: !c.Rename? && c.path == path
  }

  lemma {:induction false} AboutKeeps(a: Files, changes: seq<Change>, b: Files, path: Path)
    requires Leads(a, changes, b) && AllAbout(changes, path)
    ensures b - {path} == a - {path}
  {
    if changes != [] {
      var init, last := changes[..|changes| - 1], changes[|changes| - 1];
      var m := Replay(a, init).value;
      assert last in changes;
      AboutKeeps(a, init, m, path);
      assert b - {path} == m - {path};
    }
  }

  /** After n of the changes every file is as it was, but for one. */
  ghost predicate AsBefore(a: Files, changes: seq<Change>, n: nat, but: Path)
    requires n <= |changes|
  {
    Replay(a, changes[..n]).Some? && Replay(a, changes[..n]).value - {but} == a - {but}
  }

  lemma AboutAsBefore(a: Files, changes: seq<Change>, b: Files, path: Path, n: nat)
    requires Leads(a, changes, b) && n <= |changes| && AllAbout(changes[..n], path)
    ensures AsBefore(a, changes, n, path)
  {
    OnTheWay(a, changes, b, n);
    AboutKeeps(a, changes[..n], Replay(a, changes[..n]).value, path);
  }
}
