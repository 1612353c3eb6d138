/** The Ubuntu backend of update_notifier_tray/distros/ubuntu.py: a Debian
    backend that overrides only detection and its command-line name.  What it
    inherits is dispatched to the Debian module by Distro. */
module Ubuntu {
  import opened Text
  import DebianBackend = Debian

  /** detected: "Ubuntu" occurs in the output of `lsb_release -a`; Debian's
      test is replaced, not extended. */
  predicate Detected(lsbReleaseOutput: string) {
    Contains(lsbReleaseOutput, "Ubuntu")
  }

  lemma DetectedIffUbuntuOccurs(lsbReleaseOutput: string)
    ensures Detected(lsbReleaseOutput) <==> IsSubstring("Ubuntu", lsbReleaseOutput)
  {
    ContainsIsSubstring(lsbReleaseOutput, "Ubuntu");
  }

  function CommandLineName(): string {
    "ubuntu"
  }

  /** Every output that names Debian but not Ubuntu is detected as Debian and
      not as Ubuntu: the override does not fall back to Debian's test. */
  lemma DebianIsNotUbuntu(lsbReleaseOutput: string)
    requires IsSubstring("Debian", lsbReleaseOutput) && !IsSubstring("Ubuntu", lsbReleaseOutput)
    ensures DebianBackend.Detected(lsbReleaseOutput) && !Detected(lsbReleaseOutput)
  {
    DebianBackend.DetectedIffDebianOccurs(lsbReleaseOutput);
    DetectedIffUbuntuOccurs(lsbReleaseOutput);
  }

  /** An instance: the distributor line of a Debian system. */
  lemma DebianDistributorLine(lsbReleaseOutput: string)
    requires lsbReleaseOutput == "Distributor ID:\tDebian"
    ensures DebianBackend.Detected(lsbReleaseOutput) && !Detected(lsbReleaseOutput)
  {
    assert OccursAt("Debian", lsbReleaseOutput, 16);
    assert 'U' !in lsbReleaseOutput;
    NotSubstringWithoutFirstChar("Ubuntu", lsbReleaseOutput);
    DebianIsNotUbuntu(lsbReleaseOutput);
  }
}
