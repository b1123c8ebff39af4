/** Values shared by the whole model: optional values, 3-D points and
    the string helpers the front end and the back end both rely on. */
module Common {

  datatype Option<+T> = None | Some(value: T)

  /** A world-space point as three.js delivers it (Vector3), over the reals. */
  datatype Point = Point(x: real, y: real, z: real)

  const Origin: Point := Point(0.0, 0.0, 0.0)

  /** The page's three interaction-mode flags, passed down as props. */
  datatype Modes = Modes(selecao: bool, medicao: bool, anotacao: bool)

  predicate AnyMode(m: Modes) {
    m.selecao || m.medicao || m.anotacao
  }

  /** A sequence in which no value occurs twice (the iteration order of a JS Set). */
  predicate NoDup<T(==)>(s: seq<T>) {
    forall i, j :: 0 <= i < j < |s| ==> s[i] != s[j]
  }

  function Elems<T>(s: seq<T>): set<T> {
    set x | x in s
  }

  /** `String.prototype.toLowerCase` on the ASCII letters; every other character is kept. */
  function LowerChar(c: char): (r: char)
    ensures 'A' <= c <= 'Z' ==> 'a' <= r <= 'z'
    ensures !('A' <= c <= 'Z') ==> r == c
  {
    if 'A' <= c <= 'Z' then (c as int - 'A' as int + 'a' as int) as char else c
  }

  function Lower(s: string): (r: string)
    ensures |r| == |s|
    ensures forall i :: 0 <= i < |s| ==> r[i] == LowerChar(s[i])
  {
    if s == [] then [] else [LowerChar(s[0])] + Lower(s[1..])
  }

  lemma {:induction false} LowerAppend(a: string, b: string)
    ensures Lower(a + b) == Lower(a) + Lower(b)
  {
    if a == [] {
      assert a + b == b;
    } else {
      assert (a + b)[0] == a[0];
      assert (a + b)[1..] == a[1..] + b;
      LowerAppend(a[1..], b);
    }
  }

  /** The last `n` characters of `s`, or all of `s` when it is shorter
      (`String.prototype.slice(-n)` for n > 0). */
  function LastChars(s: string, n: nat): (r: string)
    ensures |r| == if |s| < n then |s| else n
    ensures s == s[..|s| - |r|] + r
  {
    if |s| < n then s else s[|s| - n..]
  }
}
