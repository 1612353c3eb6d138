# update-notifier-tray, modelled in Dafny

update-notifier-tray is a small system-tray agent. It works in three parts:

- A background thread asks the distribution's package manager how many updates are pending. It publishes that count to the tray icon every check interval.
- The icon shows itself with a tooltip and fires one desktop notification when the count changes to a positive number. It hides when the count drops to zero or below.
- Clicking the icon launches the distribution's update tool.

This project models the decision logic of that agent and proves its properties:

- `TrayIcon` models the count-change handler, the message wording and the click filter of `update_notifier_tray/cli.py`.
  - `UpdateNotifierTrayIcon` is a class whose `HandleCountChanged` updates the remembered count, the visibility and the tooltip in place. It appends what it asks of Qt and the notification service to an effect log.
  - The pure functions `Reaction`/`Reactions` specify that log.
- `CheckThread` models the polling thread's `run`/`stop` and the exit sequence of `handle_exit`, run sequentially.
  - The UI context's `stop()` is placed just before the thread's flag test number `exitAt`. Flag tests are the `while` test and the test before every one-second sleep.
  - The outcome of the k-th probe is `probe(k)`.
  - `Run` is proved to produce the trace `RunTrace`, and to leave the icon in the state the published counts lead to.
- `Gentoo` models line counting over `emerge --pretend` output, detection, the interval and the update shell line.
- `Debian` models counting over the apt cache inside `try`/`finally`, and the cache lifecycle with the module-wide `_cache_instance`. The apt cache is a map from package name to what reading its record gives.
- `Ubuntu` models the two overrides of the Debian backend.
- `Distro` models dispatch over the three backends. Ubuntu inherits everything else from Debian.
- `Text` gives Python's `in`, `startswith`, `split`, `join` and `'%d'` with proved properties.

## Model

| member | source | states |
|---|---|---|
| TrayIcon.Message | update_notifier_tray/cli.py:63-69 | the message for a positive count; it is the singular "There is 1 update available" exactly for count 1, otherwise "There are " + the decimal count + " updates available" |
| TrayIcon.LaunchesUpdateGui | update_notifier_tray/cli.py:48 | the click filter: true for Trigger, DoubleClick and MiddleClick, false for Context and any other reason |
| TrayIcon.Reaction | update_notifier_tray/cli.py:55-77 | the effects of one published count against the remembered one; empty exactly when the count is unchanged, tooltip + show + one notification for a changed positive count, hide otherwise |
| TrayIcon.Reactions | update_notifier_tray/cli.py:55-77 | the effects of a sequence of published counts, each judged against the count before it; its properties are the lemmas below |
| TrayIcon.MessageInjective | update_notifier_tray/cli.py:63-69 | two positive counts with the same message are equal: "There is 1 update available" for 1, "There are N updates available" for N > 1 |
| TrayIcon.ReactionVisibility | update_notifier_tray/cli.py:60-77 | after one reaction the icon is shown exactly when the new count is positive, whether or not it changed |
| TrayIcon.ToolTipAfter | update_notifier_tray/cli.py:71 | the tooltip after a log of effects: the text of the last tooltip request, or the starting tooltip when there is none |
| TrayIcon.ReactionToolTip | update_notifier_tray/cli.py:71-77 | one reaction sets the tooltip to the message of a changed positive count and leaves it as it was for an unchanged count or a hide |
| TrayIcon.FirstZeroIsQuiet | update_notifier_tray/cli.py:43 | the remembered count starts at 0, so a first published 0 has no effect |
| TrayIcon.RepeatedCountIsQuiet | update_notifier_tray/cli.py:55-61 | publishing the count just published again adds no tooltip, show, hide or notification |
| TrayIcon.ConstantCountReactsOnce | update_notifier_tray/cli.py:55-61 | a count published n > 0 times in a row reacts exactly as a single publish does |
| TrayIcon.VisibilityFollowsLastCount | update_notifier_tray/cli.py:52-77 | for every sequence of published counts, the icon ends shown exactly when the last count is positive |
| TrayIcon.NotificationsAreForChangedPositiveCounts | update_notifier_tray/cli.py:63-75 | every notification has the title "Updates available" and the message of a positive published count that differed from its predecessor |
| TrayIcon.NotificationOfChange | update_notifier_tray/cli.py:71-75 | a changed positive count fires exactly one notification, whose body is its message |
| TrayIcon.ScenarioZeroThreeThreeZero | update_notifier_tray/cli.py:52-77 | the counts 0, 3, 3, 0 give exactly tooltip, show and one notification for 3, then one hide |
| TrayIcon.ScenarioTwoProbeErrors | update_notifier_tray/cli.py:52-77 | two 9999 publishes notify once, with "There are 9999 updates available" |
| TrayIcon.UpdateNotifierTrayIcon.constructor | update_notifier_tray/cli.py:43 | a new icon remembers 0, is hidden and has asked for nothing |
| TrayIcon.UpdateNotifierTrayIcon.HandleActivated | update_notifier_tray/cli.py:47-49 | Trigger, DoubleClick and MiddleClick launch the update tool; any other reason does nothing |
| TrayIcon.UpdateNotifierTrayIcon.HandleCountChanged | update_notifier_tray/cli.py:52-77 | the remembered count becomes the new count; the effect log grows by the reaction to the change; the icon invariant (shown iff count > 0, tooltip = message) is kept; an unchanged count leaves visibility and tooltip alone |
| TrayIcon.UpdateNotifierTrayIcon.Quit | update_notifier_tray/cli.py:82 | quitting appends the quit request to the effect log |
| CheckThread.PublishedCount | update_notifier_tray/cli.py:105-108 | the count published for one probe: its count, or 9999 when it raised CalledProcessError |
| CheckThread.RunTrace | update_notifier_tray/cli.py:103-113 | the reference trace of run: from each `while` test, one publish then up to `interval` sleeps, each preceded by a flag test, with the stop placed before test `exitAt` |
| CheckThread.UpdateCheckThread.constructor | update_notifier_tray/cli.py:91-95 | a new thread has its exit flag clear, has done nothing, and uses its distribution's check interval |
| CheckThread.UpdateCheckThread.Stop | update_notifier_tray/cli.py:100-101 | stop sets the exit flag; a second stop leaves it set |
| CheckThread.UpdateCheckThread.StopMayArrive | update_notifier_tray/cli.py:100-101 | the point before flag test number `test` where the UI's stop may land: the flag becomes set exactly at test `exitAt`, stays set, and the stop is recorded |
| CheckThread.UpdateCheckThread.Publish | update_notifier_tray/cli.py:109 | a publish records the count and hands it to the icon's count-change handler, keeping the icon in step with the published counts |
| CheckThread.UpdateCheckThread.Sleep | update_notifier_tray/cli.py:113 | a one-second sleep is recorded and changes nothing else |
| CheckThread.UpdateCheckThread.WaitInterval | update_notifier_tray/cli.py:110-113 | the wait sleeps up to `interval` seconds, one flag test before each, and ends at once when the flag is set |
| CheckThread.UpdateCheckThread.Run | update_notifier_tray/cli.py:103-113 | run ends with the flag set; its trace is RunTrace; the icon's effects are the reactions to the published counts, in order, and its remembered count and tooltip are those the reactions leave |
| CheckThread.RunFollowsPeriod | update_notifier_tray/cli.py:103-113 | the thread's steps are the first exitAt steps of the fixed period publish, sleep interval seconds, publish, …; a failing probe does not end or alter the period |
| CheckThread.RunPublishesProbesInOrder | update_notifier_tray/cli.py:105-109 | the k-th published count is the k-th probe's count, or 9999 when that probe raised CalledProcessError |
| CheckThread.PeriodicPublishesProbesInOrder | update_notifier_tray/cli.py:105-109 | within the reference period, publishes follow the probes in order |
| CheckThread.PeriodicPublishCount | update_notifier_tray/cli.py:103-113 | n steps of the period publish (n + interval − due) / (interval + 1) times |
| CheckThread.RunStepCounts | update_notifier_tray/cli.py:103-113 | before exit the thread makes exitAt steps, of which (exitAt + interval) / (interval + 1) are publishes and the rest one-second sleeps |
| CheckThread.LoopStopsPromptly | update_notifier_tray/cli.py:104-112 | from a `while` test before the stop, the stop occurs once and at most one step follows it |
| CheckThread.WaitStopsPromptly | update_notifier_tray/cli.py:110-112 | from a sleep-loop test before the stop, the stop occurs once and at most one step follows it |
| CheckThread.RunStopsPromptly | update_notifier_tray/cli.py:100-113 | once stop is requested, the thread does at most one more step (the publish of a probe in flight, or the second it is sleeping) and exits |
| CheckThread.Session | update_notifier_tray/cli.py:79-82 | handle_exit stops and joins the thread before quitting: the thread ends with its flag set and every publish comes before the quit, which comes last; in this sequential model each publish's reaction runs at once, so the reactions precede the quit as well |
| Gentoo.Detected | update_notifier_tray/distros/gentoo.py:37-38 | detection by substring search for "Gentoo"; DetectedIffGentooOccurs states its meaning |
| Gentoo.DescribeUpdateGuiAction | update_notifier_tray/distros/gentoo.py:33-34 | the menu label 'Run "emerge --ask --&update ..."' |
| Gentoo.CommandLineName | update_notifier_tray/distros/gentoo.py:40-42 | the command-line name "gentoo" |
| Gentoo.DetectedIffGentooOccurs | update_notifier_tray/distros/gentoo.py:37-38 | detected holds iff "Gentoo" is a substring of the lsb_release output |
| Gentoo.CheckIntervalSeconds | update_notifier_tray/distros/gentoo.py:52-53 | the interval is 43200 seconds |
| Gentoo.CountEbuildLines | update_notifier_tray/distros/gentoo.py:47-50 | the count never exceeds the number of lines |
| Gentoo.EbuildLineCount | update_notifier_tray/distros/gentoo.py:47-50 | the number of '\n'-separated lines of the output that begin with "[ebuild"; at most the number of lines |
| Gentoo.GetUpdateablePackageCount | update_notifier_tray/distros/gentoo.py:44-50 | a non-zero exit is a CalledProcessError with that status, never a count; otherwise the count is at most the number of '\n'-separated lines |
| Gentoo.CountZeroIffNoMarkedLine | update_notifier_tray/distros/gentoo.py:47-50 | the count is 0 iff no line begins with "[ebuild" |
| Gentoo.CountIsAdditive | update_notifier_tray/distros/gentoo.py:47-50 | count(a + "\n" + b) == count(a) + count(b) |
| Gentoo.SingleLineCount | update_notifier_tray/distros/gentoo.py:49 | a single line counts 1 iff it begins with "[ebuild", so "[ebuild" later in a line does not count |
| Gentoo.ExampleOutputCount | update_notifier_tray/distros/gentoo.py:47-50 | of "[ebuild  U] a", " [ebuild] b" and "[blocks] c", only the first counts |
| Gentoo.ProbeOnlyPretends | update_notifier_tray/distros/gentoo.py:13-29 | the check command passes --pretend and not --ask; the update command passes --ask and not --pretend |
| Gentoo.GetUpdateCommand | update_notifier_tray/distros/gentoo.py:55-56 | the shell line "(set -x; sudo " + the update command joined by spaces + ") ; cd ~; bash -i"; UpdateCommandRoundTrip states its meaning |
| Gentoo.StartUpdateGuiArgv | update_notifier_tray/distros/gentoo.py:58-62 | the terminal launched: terminator -e with the update shell line |
| Gentoo.UpdateCommandRoundTrip | update_notifier_tray/distros/gentoo.py:55-56 | the shell line is "(set -x; sudo " + inner + ") ; cd ~; bash -i" where splitting inner at spaces gives back the update command's argument vector |
| Debian.UpgradableCountBounded | update_notifier_tray/distros/debian.py:50-54 | the count lies between 0 and the number of cache keys |
| Debian.Detected | update_notifier_tray/distros/debian.py:40-41 | detection by substring search for "Debian"; DetectedIffDebianOccurs states its meaning |
| Debian.DescribeUpdateGuiAction | update_notifier_tray/distros/debian.py:36-37 | the menu label "Run gpk-&update-viewer" |
| Debian.CommandLineName | update_notifier_tray/distros/debian.py:43-45 | the command-line name "debian" |
| Debian.StartUpdateGuiArgv | update_notifier_tray/distros/debian.py:61-62 | the tool launched: gpk-update-viewer with no arguments |
| Debian.DetectedIffDebianOccurs | update_notifier_tray/distros/debian.py:40-41 | detected holds iff "Debian" is a substring of the lsb_release output |
| Debian.CheckIntervalSeconds | update_notifier_tray/distros/debian.py:58-59 | the interval is 60 seconds |
| Debian.AptCache.constructor | update_notifier_tray/distros/debian.py:19 | a new apt cache has read the package state and is open |
| Debian.AptCache.Open | update_notifier_tray/distros/debian.py:26 | open rereads the package state and leaves the cache open |
| Debian.AptCache.Close | update_notifier_tray/distros/debian.py:32 | close, callable only where apt provides it, leaves the cache closed |
| Debian.AptLibrary.constructor | update_notifier_tray/distros/debian.py:12 | the module-wide cache starts unset and no cache has been created |
| Debian.AptLibrary.OpenAptCache | update_notifier_tray/distros/debian.py:15-27 | with close: a fresh open cache each time, the module-wide one untouched; without: the module-wide cache, created on first use only, reopened and returned |
| Debian.AptLibrary.CloseAptCache | update_notifier_tray/distros/debian.py:30-32 | closes the cache iff it supports close, otherwise changes nothing |
| Debian.CountUpgradable | update_notifier_tray/distros/debian.py:50-53 | the loop counts exactly the packages whose record is upgradable, or fails when a record cannot be read |
| Debian.GetUpdateablePackageCount | update_notifier_tray/distros/debian.py:47-56 | the result is the number of upgradable packages or the error; on both paths the cache is handed to the close step, so a closable cache ends closed |
| Debian.TwoProbes | update_notifier_tray/distros/debian.py:15-56 | with close, two probes create two distinct caches and both end closed; without it exactly one cache is created, reused by the second probe, left open and kept as the module-wide cache |
| Ubuntu.DetectedIffUbuntuOccurs | update_notifier_tray/distros/ubuntu.py:9-10 | Ubuntu's detected holds iff "Ubuntu" is a substring of the output |
| Ubuntu.Detected | update_notifier_tray/distros/ubuntu.py:9-10 | detection by substring search for "Ubuntu", replacing Debian's test; DetectedIffUbuntuOccurs states its meaning |
| Ubuntu.CommandLineName | update_notifier_tray/distros/ubuntu.py:13-14 | the command-line name "ubuntu" |
| Ubuntu.DebianIsNotUbuntu | update_notifier_tray/distros/ubuntu.py:9-10 | every output naming Debian but not Ubuntu is detected as Debian and not as Ubuntu: the override does not fall back |
| Ubuntu.DebianDistributorLine | update_notifier_tray/distros/ubuntu.py:9-10 | the instance "Distributor ID:\tDebian" is detected as Debian and not as Ubuntu |
| Distro.CheckIntervalSeconds | update_notifier_tray/distro.py:22-23 | every backend's interval is positive |
| Distro.Detected | update_notifier_tray/distro.py:11-13 | dispatch of detected to the three backends, Ubuntu using its own override |
| Distro.DetectedIffMarkerOccurs | update_notifier_tray/distro.py:11-13 | each backend is detected exactly when its own name ("Debian", "Gentoo", "Ubuntu") occurs in the lsb_release output |
| Distro.CommandLineName | update_notifier_tray/distro.py:15-17 | dispatch of get_command_line_name, Ubuntu using its own override |
| Distro.DescribeUpdateGuiAction | update_notifier_tray/distro.py:8-9 | dispatch of the menu label, Ubuntu inheriting Debian's |
| Distro.StartUpdateGuiArgv | update_notifier_tray/distro.py:25-26 | dispatch of the launched update tool, Ubuntu inheriting Debian's |
| Distro.UbuntuInheritsDebian | update_notifier_tray/distros/ubuntu.py:7 | Ubuntu's interval (60 s), update-action label and update tool are Debian's |
| Distro.CommandLineNamesAreDistinct | update_notifier_tray/distro.py:15-17 | the backends' command-line names ("debian", "gentoo", "ubuntu") are pairwise distinct |
| Text.ContainsIsSubstring | update_notifier_tray/distros/gentoo.py:38 | the executable substring search agrees with "some window equals the needle" |
| Text.JoinSplit | update_notifier_tray/distros/gentoo.py:48 | joining the pieces of a split gives the string back |
| Text.SplitJoin | update_notifier_tray/distros/gentoo.py:56 | splitting a join of separator-free pieces gives the pieces back |
| Text.SplitAppend | update_notifier_tray/distros/gentoo.py:48 | the pieces of a + sep + b are the pieces of a followed by those of b |
| Text.DecimalRoundTrip | update_notifier_tray/cli.py:69 | reading back the digits printed for n gives n |

## Left out

- Qt and pynotify: widgets, the menu, the icon file, signals and slots, and notification delivery. The model records only the requests the icon makes: tooltip, show, hide, notify, launch, quit.
- Threading: the lock around `_previous_count`, the `Event`, the cross-thread signal and `join`. The thread and the UI context are modelled sequentially. The stop's arrival is an input, `exitAt`, counted in flag tests.
- `time.sleep(1)` is one `Slept` step.
- The interval is read once when the thread is created. The source asks the backend on each iteration, but every backend returns a constant.
- Process I/O and signals: `subprocess.check_output`, `Popen`, `/dev/null`, `SIGCHLD` and `SIGINT`. Gentoo's probe takes emerge's exit status and output as parameters. `start_update_gui` is reduced to the argument vector it launches.
- `main()`: argparse, `_DISTRO_CLASSES` and `QApplication` setup. `_DISTRO_CLASSES` lists only Debian and Gentoo, so Ubuntu cannot be selected from the command line in this revision. Ubuntu is modelled all the same.
- The abstract `Distro` base class becomes a closed datatype with dispatch functions, since every method of the base only raises.
- The apt library's internals: how the cache reads package lists, and the order of `cache.keys()`. The count does not depend on that order. A failure of `apt.Cache()` itself is not modelled.
- CheckThread.ProbeOutcome: only `CalledProcessError` is caught by the loop. Any other exception from a probe (Debian's cache errors, for instance) would end the thread. The model's probes return a count or `CalledProcessError` only.
- CheckThread.Session: in the program, `emit` on the worker thread queues the icon's handle_count_changed for the UI thread. The reaction to the last publish (a probe in flight when the stop arrives) may still be queued while the UI thread waits in `join()`, and may never run after `qApp.quit()`. The model runs each reaction at once, so it does not capture that a late reaction can be lost; only "every publish precedes the quit" holds in both.
- CheckThread.UpdateCheckThread.Run: requires a thread that has not run yet, with a clear flag and an empty trace. A Python thread can be started only once.
- setup.py: packaging metadata.
