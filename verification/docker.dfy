/** `isDockerProcess`: the cheap text test that decides whether the
    container lookup is worth running for a port. */
module Docker {
  import opened Strings

  /** The lsof output mentions `docker` in any mix of upper and lower case:
      the gate holds exactly when `docker` is spelt at some index, each
      letter in either case; so never for the empty text. */
  function IsDockerProcess(lsofOut: string): (r: bool)
    ensures r <==> exists i: nat :: DockerAt(lsofOut, i)
  {
    LowerContainsDockerIff(lsofOut);
    Contains(ToLower(lsofOut), "docker")
  }

  /** `s` spells `docker` at `i`, each letter in either case. */
  predicate DockerAt(s: string, i: nat)
  {
    && i + 6 <= |s|
    && s[i] in "dD" && s[i + 1] in "oO" && s[i + 2] in "cC"
    && s[i + 3] in "kK" && s[i + 4] in "eE" && s[i + 5] in "rR"
  }

  lemma DockerAtLower(s: string, i: nat)
    requires i + 6 <= |s|
    ensures OccursAt(ToLower(s), "docker", i) <==> DockerAt(s, i)
  {
    var l := ToLower(s);
    if OccursAt(l, "docker", i) {
      assert l[i..i + 6] == "docker";
      assert l[i] == 'd' && l[i + 1] == 'o' && l[i + 2] == 'c';
      assert l[i + 3] == 'k' && l[i + 4] == 'e' && l[i + 5] == 'r';
    }
    if DockerAt(s, i) {
      assert l[i..i + 6] == "docker";
    }
  }

  lemma LowerContainsDockerIff(s: string)
    ensures Contains(ToLower(s), "docker") <==> exists i: nat :: DockerAt(s, i)
  {
    if Contains(ToLower(s), "docker") {
      var i: nat :| OccursAt(ToLower(s), "docker", i);
      DockerAtLower(s, i);
    }
    if exists i: nat :: DockerAt(s, i) {
      var i: nat :| DockerAt(s, i);
      DockerAtLower(s, i);
    }
  }
}
