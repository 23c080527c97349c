/** Path strings of vfs.c: how resolve_path and the creating functions cut them up. */
module Paths {

  function Piece(token: string): seq<string> {
    if token == "" then [] else [token]
  }

  /** The components of a path, the first of which has begun with `token`; empty ones do not count. */
  function Parts(token: string, p: string): seq<string>
    decreases |p|
  {
    if p == "" then Piece(token)
    else if p[0] == '/' then Piece(token) + Parts("", p[1..])
    else Parts(token + [p[0]], p[1..])
  }

  function Components(p: string): seq<string> {
    Parts("", p)
  }

  predicate SlashFree(s: string) {
    forall i :: 0 <= i < |s| ==> s[i] != '/'
  }

  /** A name that resolve_path looks up as it stands */
  predicate Plain(name: string) {
    name != "" && name != "." && name != ".." && SlashFree(name)
  }

  /** The position of the last slash, or -1 */
  function LastSlash(p: string): (k: int)
    ensures -1 <= k < |p|
    ensures k >= 0 ==> p[k] == '/'
    ensures forall i :: k < i < |p| ==> p[i] != '/'
    decreases |p|
  {
    if p == "" then -1
    else if p[|p| - 1] == '/' then |p| - 1
    else LastSlash(p[..|p| - 1])
  }

  function BaseName(p: string): (name: string)
    ensures SlashFree(name)
  {
    if LastSlash(p) < 0 then p else p[LastSlash(p) + 1..]
  }

  lemma LastSlashIs(p: string, k: int)
    requires -1 <= k < |p| && (k >= 0 ==> p[k] == '/') && forall i :: k < i < |p| ==> p[i] != '/'
    ensures LastSlash(p) == k
  {
  }

  lemma {:induction false} PartsFree(token: string, p: string)
    requires SlashFree(p)
    ensures Parts(token, p) == Piece(token + p)
    decreases |p|
  {
    if p == "" {
      assert token + p == token;
    } else {
      PartsFree(token + [p[0]], p[1..]);
      assert token + [p[0]] + p[1..] == token + p;
    }
  }

  lemma {:induction false} PartsSlash(token: string, p: string, q: string)
    ensures Parts(token, p + "/" + q) == Parts(token, p) + Components(q)
    decreases |p|
  {
    var whole := p + "/" + q;
    if p == "" {
      assert whole == "/" + q && whole[1..] == q;
    } else {
      assert whole[1..] == p[1..] + "/" + q;
      if p[0] == '/' {
        PartsSlash("", p[1..], q);
      } else {
        PartsSlash(token + [p[0]], p[1..], q);
      }
    }
  }

  /** A slash and a name add one component. */
  lemma ComponentsOfChild(p: string, name: string)
    requires name != "" && SlashFree(name)
    ensures Components(p + "/" + name) == Components(p) + [name]
  {
    PartsSlash("", p, name);
    PartsFree("", name);
    assert "" + name == name;
  }

  lemma BaseNameOfChild(p: string, name: string)
    requires SlashFree(name)
    ensures LastSlash(p + "/" + name) == |p| && BaseName(p + "/" + name) == name
  {
    LastSlashIs(p + "/" + name, |p|);
  }
}
