/**
 * Home-directory shorthand in the chain-data path option.
 */
module Paths {
  import opened Outcomes

  /** Default value of the `--chain-path` option. */
  const DefaultChainPath: string := "~/.mwc/main/chain_data"

  /** `path.starts_with("~/")`. */
  predicate HasHomePrefix(path: string) {
    |path| >= 2 && path[0] == '~' && path[1] == '/'
  }

  /**
   * `expand_tilde`: when the path starts with "~/" and HOME is set, the "~"
   * is replaced by HOME (the "/" after it is kept); otherwise the path is
   * returned as given. `home` is the value of the HOME variable, None when unset.
   */
  function ExpandTilde(path: string, home: Option<string>): (r: string)
    ensures HasHomePrefix(path) && home.Some? ==>
      && |r| == |home.value| + |path| - 1
      && r[..|home.value|] == home.value
      && "~" + r[|home.value|..] == path
    ensures !(HasHomePrefix(path) && home.Some?) ==> r == path
  {
    if HasHomePrefix(path) && home.Some? then home.value + path[1..] else path
  }

  /** An expanded path is HOME, then the "/" of the shorthand, then the rest. */
  lemma {:induction false} ExpandKeepsSlash(path: string, home: string)
    requires HasHomePrefix(path)
    ensures ExpandTilde(path, Some(home)) == home + "/" + path[2..]
  {
    assert path[1..] == "/" + path[2..];
  }

  /** Without HOME, with a bare "~", or with "~user/...", nothing is expanded. */
  lemma {:induction false} ExpandLeavesOthers(path: string, home: Option<string>)
    requires home.None? || path == "~" || (|path| >= 2 && path[0] == '~' && path[1] != '/')
    ensures ExpandTilde(path, home) == path
  {
  }

  /** The default option expands to HOME + "/.mwc/main/chain_data". */
  lemma {:induction false} DefaultPathExpands(home: string)
    ensures ExpandTilde(DefaultChainPath, Some(home)) == home + "/.mwc/main/chain_data"
  {
    ExpandKeepsSlash(DefaultChainPath, home);
    assert DefaultChainPath[2..] == ".mwc/main/chain_data";
  }
}
