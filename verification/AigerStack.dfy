/** The explicit depth-first stack of the AIGER library: variables, with a zero above each one that is
    being explored. The zeros cut the stack into segments; the last variable of a segment is the one
    whose exploration the next segment belongs to. */
module AigerStack {

  function Join(segs: seq<seq<nat>>): (r: seq<nat>)
    requires segs != []
  {
    if |segs| == 1 then segs[0] else Join(segs[..|segs| - 1]) + [0] + segs[|segs| - 1]
  }

  /** No variable is zero. */
  ghost predicate NonZero(segs: seq<seq<nat>>) {
    forall k, u :: 0 <= k < |segs| && u in segs[k] ==> u > 0
  }

  lemma Top(segs: seq<seq<nat>>)
    requires segs != [] && NonZero(segs)
    ensures var m := |segs| - 1; var s := Join(segs);
      && (segs[m] != [] ==> s != [] && s[|s| - 1] == segs[m][|segs[m]| - 1] && s[|s| - 1] != 0)
      && (segs[m] == [] && m > 0 ==> s != [] && s[|s| - 1] == 0)
      && (s == [] <==> m == 0 && segs[0] == [])
  {
    var m := |segs| - 1;
    if segs[m] != [] {
      assert segs[m][|segs[m]| - 1] in segs[m];
    }
  }

  lemma PopVar(segs: seq<seq<nat>>)
    requires segs != [] && segs[|segs| - 1] != []
    ensures var m := |segs| - 1; var s := Join(segs);
      s != [] && s[..|s| - 1] == Join(segs[m := segs[m][..|segs[m]| - 1]])
  {
    var m := |segs| - 1;
    var next := segs[m := segs[m][..|segs[m]| - 1]];
    if m > 0 {
      assert next[..m] == segs[..m];
    }
  }

  lemma PopZero(segs: seq<seq<nat>>)
    requires |segs| > 1 && segs[|segs| - 1] == []
    ensures var s := Join(segs); s != [] && s[..|s| - 1] == Join(segs[..|segs| - 1])
  {
  }
}
