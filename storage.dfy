/** The storage kinds and the parsing of the configured kind name. */
module Storage {
  import opened Text

  /** `Kind`, numbered by declaration order: Local is 0, Git is 1. */
  datatype Kind = Local | Git

  /** The integer value iota gives each kind. */
  function Value(k: Kind): (n: nat)
    ensures n < 2
    ensures k == Local <==> n == 0
  {
    match k
    case Local => 0
    case Git => 1
  }

  /** Parse: the name "git" in any letter case selects Git, every other name Local. */
  function Parse(s: string): (k: Kind)
    ensures k == Git <==>
      |s| == 3 && (s[0] == 'g' || s[0] == 'G') && (s[1] == 'i' || s[1] == 'I') && (s[2] == 't' || s[2] == 'T')
  {
    var lower := ToLower(s);
    if lower == "git" then Git
    else
      assert |s| == 3 ==> lower != "git" ==> lower[0] != 'g' || lower[1] != 'i' || lower[2] != 't';
      Local
  }

  /** Two names that differ only in ASCII letter case select the same kind. */
  lemma ParseIgnoresCase(s: string, t: string)
    requires |s| == |t| && forall i :: 0 <= i < |s| ==> LowerAscii(s[i]) == LowerAscii(t[i])
    ensures Parse(s) == Parse(t)
  {
    assert ToLower(s) == ToLower(t);
  }

  lemma ParseSpellings()
    ensures Parse("git") == Git && Parse("Git") == Git && Parse("GIT") == Git
    ensures Parse("") == Local && Parse("local") == Local && Parse("gitx") == Local
  {
  }
}
