/** A directory tree as a finite map from absolute paths to inodes, with the system
    calls the server issues. Symbolic links occur only where the path resolver is studied. */
module FileSystem {
  import opened Paths

  type Byte = b: int | 0 <= b < 256
  type Bytes = seq<Byte>

  datatype Node =
    | File(ino: nat, data: Bytes)
    | Dir(ino: nat)
    | Link(ino: nat, target: string)

  type Fs = map<Path, Node>

  datatype Error = NotExist | NotDir | Exists | BadPath | Traversal | HiddenPath | Loop
  datatype Result<+T> = Ok(value: T) | Err(error: Error)

  function Parent(p: Path): Path
    requires p != []
  {
    p[..|p| - 1]
  }

  function Last(p: Path): Name
    requires p != []
  {
    p[|p| - 1]
  }

  predicate IsDir(fs: Fs, p: Path) {
    p in fs && fs[p].Dir?
  }

  /** Every entry sits in a directory and has a legal name; the root is a directory. */
  ghost predicate WellFormed(fs: Fs) {
    && IsDir(fs, [])
    && forall p :: p in fs && p != [] ==> ValidName(Last(p)) && IsDir(fs, Parent(p))
  }

  ghost predicate NoLinks(fs: Fs) {
    forall p :: p in fs ==> !fs[p].Link?
  }

  lemma {:induction false} Ancestors(fs: Fs, p: Path, k: nat)
    requires WellFormed(fs) && p in fs && k <= |p|
    ensures p[..k] in fs && (k < |p| ==> fs[p[..k]].Dir?)
    decreases |p|
  {
    if k == |p| {
      assert p[..k] == p;
    } else if k == |p| - 1 {
      assert p[..k] == Parent(p);
    } else {
      Ancestors(fs, Parent(p), k);
      assert Parent(p)[..k] == p[..k];
    }
  }

  lemma {:induction false} NamesValid(fs: Fs, p: Path)
    requires WellFormed(fs) && p in fs
    ensures ValidPath(p)
    decreases |p|
  {
    if p != [] {
      NamesValid(fs, Parent(p));
      assert p == Parent(p) + [Last(p)];
    }
  }

  /** `lstat`/`stat` of a path whose proper prefixes contain no symbolic link. */
  function Lstat(fs: Fs, p: Path): (r: Result<Node>)
    decreases |p|
  {
    if p == [] then if p in fs then Ok(fs[p]) else Err(NotExist)
    else
      match Lstat(fs, Parent(p))
      case Err(e) => Err(e)
      case Ok(Dir(_)) => if p in fs then Ok(fs[p]) else Err(NotExist)
      case Ok(_) => Err(NotDir)
  }

  lemma {:induction false} LstatPresent(fs: Fs, p: Path)
    requires WellFormed(fs)
    ensures Lstat(fs, p).Ok? <==> p in fs
    ensures p in fs ==> Lstat(fs, p) == Ok(fs[p])
    decreases |p|
  {
    if p != [] {
      LstatPresent(fs, Parent(p));
    }
  }

  // ---------------------------------------------------------------- directory listings

  /** String comparison, as `sort` and `os.ReadDir` use it. */
  predicate Before(a: string, b: string) {
    b != "" && (a == "" || a[0] < b[0] || (a[0] == b[0] && Before(a[1..], b[1..])))
  }

  lemma {:induction false} BeforeIsAsymmetric(a: string, b: string)
    ensures !(Before(a, b) && Before(b, a))
  {
    if a != "" && b != "" {
      BeforeIsAsymmetric(a[1..], b[1..]);
    }
  }

  lemma {:induction false} BeforeIsTotal(a: string, b: string)
    ensures Before(a, b) || Before(b, a) || a == b
  {
    if a != "" && b != "" && a[0] == b[0] {
      BeforeIsTotal(a[1..], b[1..]);
      assert a == [a[0]] + a[1..] && b == [b[0]] + b[1..];
    }
  }

  lemma {:induction false} BeforeIsTransitive(a: string, b: string, c: string)
    requires Before(a, b) && Before(b, c)
    ensures Before(a, c)
  {
    if a != "" && a[0] == b[0] == c[0] {
      BeforeIsTransitive(a[1..], b[1..], c[1..]);
    }
  }

  predicate IsLeast(m: Name, s: set<Name>) {
    m in s && forall x :: x in s ==> x == m || Before(m, x)
  }

  lemma {:induction false} LeastExists(s: set<Name>)
    requires s != {}
    ensures exists m :: IsLeast(m, s)
  {
    var y :| y in s;
    if s == {y} {
      assert IsLeast(y, s);
    } else {
      LeastExists(s - {y});
      var m :| IsLeast(m, s - {y});
      BeforeIsTotal(m, y);
      if Before(y, m) {
        forall x | x in s && x != y ensures Before(y, x) {
          if x != m {
            BeforeIsTransitive(y, m, x);
          }
        }
        assert IsLeast(y, s);
      } else {
        assert IsLeast(m, s);
      }
    }
  }

  lemma LeastUnique(s: set<Name>)
    ensures forall m, m' :: IsLeast(m, s) && IsLeast(m', s) ==> m == m'
  {
    forall m, m' | IsLeast(m, s) && IsLeast(m', s) ensures m == m' {
      BeforeIsAsymmetric(m, m');
    }
  }

  function Sorted(s: set<Name>): seq<Name> {
    if s == {} then []
    else
      LeastExists(s);
      LeastUnique(s);
      var m :| m in s && IsLeast(m, s);
      [m] + Sorted(s - {m})
  }

  predicate Increasing(names: seq<Name>) {
    forall i, j :: 0 <= i < j < |names| ==> Before(names[i], names[j])
  }

  lemma {:induction false} SortedFacts(s: set<Name>)
    ensures forall n :: n in Sorted(s) <==> n in s
    ensures Increasing(Sorted(s))
  {
    if s != {} {
      LeastExists(s);
      LeastUnique(s);
      var r := Sorted(s);
      var m := r[0];
      assert IsLeast(m, s) && r == [m] + Sorted(s - {m});
      SortedFacts(s - {m});
      forall i, j | 0 <= i < j < |r| ensures Before(r[i], r[j]) {
        assert r[j] in Sorted(s - {m});
      }
    }
  }

  function Children(fs: Fs, p: Path): set<Name> {
    set q | q in fs && |q| == |p| + 1 && p <= q :: q[|p|]
  }

  /** The names in directory `p`, in order. */
  function ReadDir(fs: Fs, p: Path): seq<Name> {
    Sorted(Children(fs, p))
  }

  lemma ReadDirFacts(fs: Fs, p: Path)
    ensures forall n :: n in ReadDir(fs, p) <==> p + [n] in fs
    ensures Increasing(ReadDir(fs, p))
  {
    SortedFacts(Children(fs, p));
    forall n ensures n in Children(fs, p) <==> p + [n] in fs {
      if p + [n] in fs {
        assert (p + [n])[|p|] == n && p <= p + [n];
      }
      if n in Children(fs, p) {
        var q :| q in fs && |q| == |p| + 1 && p <= q && q[|p|] == n;
        assert q == p + [n];
      }
    }
  }

  lemma IncreasingDistinct(names: seq<Name>, i: nat, j: nat)
    requires Increasing(names) && i < j < |names|
    ensures names[i] != names[j]
  {
    BeforeIsAsymmetric(names[i], names[j]);
  }
}
