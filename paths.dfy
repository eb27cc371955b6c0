/**
 * Where simplestroke keeps its configuration, following the XDG Base
 * Directory Specification: $XDG_CONFIG_HOME when it is set and not empty,
 * otherwise $HOME/.config, and in either case the subdirectory
 * "simplestroke". The newer source builds the path on the heap; the older
 * one copies it into a caller's fixed-size buffer with strlcpy and strlcat,
 * which cut it to the buffer. The older source also names the manual page
 * of a subcommand in a 64-character buffer.
 *
 * Environment variables are parameters: None for an unset one.
 */
module Paths {
  import opened Wrappers
  import opened CStrings

  /** The value of an environment variable, if it is set. */
  type Env = Option<seq<char>>

  /** What getenv can return: nothing, or a C string. */
  predicate EnvOk(e: Env)
  {
    e.None? || NoNul(e.value)
  }

  /** Set and not empty. */
  predicate NonEmpty(e: Env)
  {
    e.Some? && e.value != []
  }

  /** The configuration home: $XDG_CONFIG_HOME if set and not empty,
      otherwise $HOME/.config; None when HOME is needed and unset (the
      program then ends). */
  function ConfigHome(xdg: Env, home: Env): (r: Option<seq<char>>)
  {
    if NonEmpty(xdg) then Some(xdg.value)
    else if home.None? then None
    else Some(home.value + "/.config")
  }

  /** config_dir() of the newer source: the configuration home followed by
      "/simplestroke"; None where it exits because HOME is unset. Every
      directory it gives ends in "/simplestroke". */
  function ConfigDir(xdg: Env, home: Env): (r: Option<seq<char>>)
    ensures r.Some? <==> NonEmpty(xdg) || home.Some?
    ensures r.Some? ==> |r.value| >= 13 && r.value[|r.value| - 13..] == "/simplestroke"
  {
    match ConfigHome(xdg, home)
    case None => None
    case Some(h) => Some(h + "/simplestroke")
  }

  /** The directory exists exactly when XDG_CONFIG_HOME is usable or HOME is
      set; it is the chosen base followed by the program's own directory. */
  lemma ConfigDirRule(xdg: Env, home: Env)
    ensures ConfigDir(xdg, home).Some? <==> NonEmpty(xdg) || home.Some?
    ensures NonEmpty(xdg) ==> ConfigDir(xdg, home) == Some(xdg.value + "/simplestroke")
    ensures !NonEmpty(xdg) && home.Some? ==>
      ConfigDir(xdg, home) == Some(home.value + "/.config/simplestroke")
  {
    if !NonEmpty(xdg) && home.Some? {
      assert home.value + "/.config" + "/simplestroke" == home.value + "/.config/simplestroke";
    }
  }

  /** An empty XDG_CONFIG_HOME counts as unset, and a usable one makes HOME
      irrelevant. */
  lemma XdgOverridesHome(xdg: seq<char>, home1: Env, home2: Env)
    ensures ConfigDir(Some([]), home1) == ConfigDir(None, home1)
    ensures xdg != [] ==> ConfigDir(Some(xdg), home1) == ConfigDir(Some(xdg), home2)
  {
  }

  /** config_home(buf, len) of the older source: aborts (before writing)
      when HOME is needed and unset; otherwise leaves in buf the
      configuration home, cut to len. */
  method WriteConfigHome(buf: array<char>, len: nat, xdg: Env, home: Env) returns (aborted: bool)
    requires len <= buf.Length && EnvOk(xdg) && EnvOk(home)
    modifies buf
    ensures aborted <==> ConfigHome(xdg, home).None?
    ensures aborted || len == 0 ==> buf[..] == old(buf[..])
    ensures !aborted && len > 0 ==> Holds(buf, Truncate(ConfigHome(xdg, home).value, len))
  {
    aborted := false;
    if NonEmpty(xdg) {
      var _ := Strlcpy(buf, xdg.value, len);
    } else {
      if home.None? {
        aborted := true;
        return;
      }
      var _ := Strlcpy(buf, home.value, len);
      if len > 0 {
        HoldsStrLen(buf, Truncate(home.value, len), len);
      }
      var _ := Strlcat(buf, "/.config", len);
      if len > 0 {
        TruncateAppend(home.value, "/.config", len);
      }
    }
  }

  /** config_dir(buf, len) of the older source: the configuration home and
      "/simplestroke", cut to len. Whenever the path fits, the buffer holds
      exactly the path the newer source builds. */
  method WriteConfigDir(buf: array<char>, len: nat, xdg: Env, home: Env) returns (aborted: bool)
    requires len <= buf.Length && EnvOk(xdg) && EnvOk(home)
    modifies buf
    ensures aborted <==> ConfigDir(xdg, home).None?
    ensures aborted || len == 0 ==> buf[..] == old(buf[..])
    ensures !aborted && len > 0 ==> Holds(buf, Truncate(ConfigDir(xdg, home).value, len))
    ensures !aborted && |ConfigDir(xdg, home).value| < len ==> Holds(buf, ConfigDir(xdg, home).value)
  {
    aborted := WriteConfigHome(buf, len, xdg, home);
    if aborted {
      return;
    }
    var h := ConfigHome(xdg, home).value;
    if len > 0 {
      HoldsStrLen(buf, Truncate(h, len), len);
    }
    var _ := Strlcat(buf, "/simplestroke", len);
    if len > 0 {
      TruncateAppend(h, "/simplestroke", len);
    }
  }

  /** The size of exec_man_for_subcommand's buffer. */
  const ManBufferSize: nat := 64

  /** The page exec_man_for_subcommand asks man for: "simplestroke", or
      "simplestroke_" and the subcommand, cut to the 64-character buffer
      (so a subcommand of up to 50 characters is kept whole). */
  method ManPageName(subcommand: Option<seq<char>>) returns (name: seq<char>)
    requires subcommand.Some? ==> NoNul(subcommand.value)
    ensures subcommand.None? ==> name == "simplestroke"
    ensures subcommand.Some? ==> name == Truncate("simplestroke_" + subcommand.value, ManBufferSize)
    ensures subcommand.Some? ==> |name| < ManBufferSize && name <= "simplestroke_" + subcommand.value
    ensures subcommand.Some? && |subcommand.value| <= 50 ==> name == "simplestroke_" + subcommand.value
  {
    if subcommand.None? {
      return "simplestroke";
    }
    ghost var full := "simplestroke_" + subcommand.value;
    ghost var cut := Truncate(full, ManBufferSize);
    var buf := new char[ManBufferSize];
    var _ := Strlcpy(buf, "simplestroke_", ManBufferSize);
    HoldsStrLen(buf, "simplestroke_", ManBufferSize);
    var _ := Strlcat(buf, subcommand.value, ManBufferSize);
    assert Holds(buf, cut);
    HoldsStrLen(buf, cut, ManBufferSize);
    assert buf[..ManBufferSize] == buf[..];
    name := buf[..StrLen(buf[..])];
    assert name == cut;
  }
}
