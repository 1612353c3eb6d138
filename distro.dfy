/** The backends behind update_notifier_tray/distro.py's interface, as a
    closed set.  Ubuntu subclasses Debian and overrides only `detected` and
    `get_command_line_name`; everything else it inherits, so it dispatches to
    Debian here. */
module Distro {
  import DebianBackend = Debian
  import GentooBackend = Gentoo
  import UbuntuBackend = Ubuntu
  import opened Text

  datatype Distro = Debian | Gentoo | Ubuntu

  function DescribeUpdateGuiAction(distro: Distro): string {
    match distro
    case Debian | Ubuntu => DebianBackend.DescribeUpdateGuiAction()
    case Gentoo => GentooBackend.DescribeUpdateGuiAction()
  }

  predicate Detected(distro: Distro, lsbReleaseOutput: string) {
    match distro
    case Debian => DebianBackend.Detected(lsbReleaseOutput)
    case Gentoo => GentooBackend.Detected(lsbReleaseOutput)
    case Ubuntu => UbuntuBackend.Detected(lsbReleaseOutput)
  }

  /** The name each backend's detected looks for in the output of `lsb_release -a`. */
  function DetectionMarker(distro: Distro): string {
    match distro
    case Debian => "Debian"
    case Gentoo => "Gentoo"
    case Ubuntu => "Ubuntu"
  }

  /** Every backend is detected exactly when its own name occurs in the
      output; Ubuntu's test is its own, not Debian's. */
  lemma DetectedIffMarkerOccurs(distro: Distro, lsbReleaseOutput: string)
    ensures Detected(distro, lsbReleaseOutput) <==> IsSubstring(DetectionMarker(distro), lsbReleaseOutput)
  {
    match distro
    case Debian => DebianBackend.DetectedIffDebianOccurs(lsbReleaseOutput);
    case Gentoo => GentooBackend.DetectedIffGentooOccurs(lsbReleaseOutput);
    case Ubuntu => UbuntuBackend.DetectedIffUbuntuOccurs(lsbReleaseOutput);
  }

  function CommandLineName(distro: Distro): string {
    match distro
    case Debian => DebianBackend.CommandLineName()
    case Gentoo => GentooBackend.CommandLineName()
    case Ubuntu => UbuntuBackend.CommandLineName()
  }

  /** get_check_interval_seconds: positive for every backend, so every wait
      between two probes takes at least one second. */
  function CheckIntervalSeconds(distro: Distro): (seconds: nat)
    ensures seconds > 0
  {
    match distro
    case Debian | Ubuntu => DebianBackend.CheckIntervalSeconds()
    case Gentoo => GentooBackend.CheckIntervalSeconds()
  }

  /** The argument vector start_update_gui launches. */
  function StartUpdateGuiArgv(distro: Distro): seq<string> {
    match distro
    case Debian | Ubuntu => DebianBackend.StartUpdateGuiArgv()
    case Gentoo => GentooBackend.StartUpdateGuiArgv()
  }

  /** Ubuntu behaves as Debian in everything it does not override. */
  lemma UbuntuInheritsDebian()
    ensures CheckIntervalSeconds(Ubuntu) == CheckIntervalSeconds(Debian) == 60
    ensures DescribeUpdateGuiAction(Ubuntu) == DescribeUpdateGuiAction(Debian)
    ensures StartUpdateGuiArgv(Ubuntu) == StartUpdateGuiArgv(Debian)
  {
  }

  /** Each backend has its own command-line flag name. */
  lemma CommandLineNamesAreDistinct(d1: Distro, d2: Distro)
    requires CommandLineName(d1) == CommandLineName(d2)
    ensures d1 == d2
  {
  }
}
