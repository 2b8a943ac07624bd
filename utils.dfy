/** Path-separator normalisation (src/utils.ts). */
module Utils {

  /** The prefix `\\?\` of a Windows extended-length path. */
  const ExtendedLengthPrefix: string := "\\\\?\\"

  /** The regular-expression test `^\\\\\?\\`: the path starts with `\\?\`. */
  predicate IsExtendedLengthPath(p: string)
  {
    |p| >= |ExtendedLengthPrefix| && p[..|ExtendedLengthPrefix|] == ExtendedLengthPrefix
  }

  /** The global replace of every `\` by `/`, one character at a time. */
  function ReplaceBackslashes(p: string): (r: string)
    ensures |r| == |p|
    ensures forall i :: 0 <= i < |p| ==> r[i] == (if p[i] == '\\' then '/' else p[i])
  {
    if p == [] then []
    else [if p[0] == '\\' then '/' else p[0]] + ReplaceBackslashes(p[1..])
  }

  /**
   * `slash`: an extended-length path is returned as it is; any other path has
   * every backslash turned into a forward slash and keeps its other characters.
   */
  function Slash(p: string): (r: string)
    ensures |r| == |p|
    ensures IsExtendedLengthPath(p) ==> r == p
    ensures !IsExtendedLengthPath(p) ==> '\\' !in r
    ensures !IsExtendedLengthPath(p) ==>
      forall i :: 0 <= i < |p| ==> r[i] == (if p[i] == '\\' then '/' else p[i])
  {
    if IsExtendedLengthPath(p) then p else ReplaceBackslashes(p)
  }

  /** A path without a backslash comes back unchanged. */
  lemma NoBackslashUnchanged(p: string)
    requires '\\' !in p
    ensures Slash(p) == p
  {
    if !IsExtendedLengthPath(p) {
      var r := Slash(p);
      assert forall i :: 0 <= i < |p| ==> r[i] == p[i] by {
        forall i | 0 <= i < |p| ensures r[i] == p[i] {
          assert p[i] in p;
        }
      }
    }
  }

  /** Normalising twice is normalising once. */
  lemma SlashIdempotent(p: string)
    ensures Slash(Slash(p)) == Slash(p)
  {
    if !IsExtendedLengthPath(p) {
      NoBackslashUnchanged(Slash(p));
    }
  }

  /** The result of `Slash` on a non-extended path is itself not an extended-length path. */
  lemma SlashOfOrdinaryIsOrdinary(p: string)
    requires !IsExtendedLengthPath(p)
    ensures !IsExtendedLengthPath(Slash(p))
  {
    var r := Slash(p);
    if |r| >= |ExtendedLengthPrefix| {
      assert r[0] in r;
      assert r[0] != ExtendedLengthPrefix[0];
    }
  }
}
