/** expandTilde from src/utils.cpp, with the value of $HOME passed in. */
module Utils {
  import opened Basics

  /**
   * expandTilde(path): an empty path stays empty; a leading '~' is replaced
   * by $HOME, or just dropped when HOME is unset; any other path is returned
   * as it is. Only the first character is looked at.
   */
  function ExpandTilde(path: string, home: Option<string>): (r: string)
    ensures path == [] ==> r == []
    ensures path != [] && path[0] != '~' ==> r == path
    ensures path != [] ==> |r| >= |path| - 1 && r[|r| - (|path| - 1)..] == path[1..]
    ensures path != [] && path[0] == '~' ==> r == (if home.Some? then home.value else []) + path[1..]
  {
    if path == [] then ""
    else if path[0] == '~' then
      match home
      case Some(h) => h + path[1..]
      case None => path[1..]
    else path
  }

  /** "~user/x" expands exactly as "~/x" would with "user/x" after it: the user name is not looked up. */
  lemma TildeUserIsNotLookedUp(user: string, rest: string, home: Option<string>)
    ensures ExpandTilde("~" + user + rest, home) == ExpandTilde("~", home) + user + rest
  {
    assert ("~" + user + rest)[1..] == user + rest;
  }

  /** Tildes after the first character survive expansion untouched, in place. */
  lemma LaterTildesKept(path: string, home: Option<string>, i: int)
    requires 0 < i < |path| && path[i] == '~'
    ensures var r := ExpandTilde(path, home);
            r[|r| - |path| + i] == '~'
  {
    var r := ExpandTilde(path, home);
    assert r[|r| - (|path| - 1)..][i - 1] == path[1..][i - 1];
  }
}
