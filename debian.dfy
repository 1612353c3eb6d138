/** The Debian backend of update_notifier_tray/distros/debian.py: counting the
    upgradable packages of the apt cache, the cache's lifecycle (a fresh cache
    per probe when apt's Cache can be closed, otherwise one module-wide cache
    reopened on every probe), detection and the check interval.  The apt cache
    is reduced to a map from package name to what reading its record gives. */
module Debian {
  import opened Text

  /** What reading one package's record gives: whether it is upgradable, or an
      error apt raises while the record is read. */
  datatype PackageRecord = Record(isUpgradable: bool) | Unreadable

  /** The result of the probe: a count, or the error that escaped the loop. */
  datatype CountResult = Count(count: nat) | CacheError

  /** The names of the upgradable packages. */
  function UpgradableNames(packages: map<string, PackageRecord>): (names: set<string>)
    ensures names <= packages.Keys
  {
    set name | name in packages && packages[name] == Record(true)
  }

  /** Every record of the cache can be read. */
  predicate AllReadable(packages: map<string, PackageRecord>) {
    forall name :: name in packages ==> packages[name].Record?
  }

  /** The count is between 0 and the number of packages in the cache. */
  lemma UpgradableCountBounded(packages: map<string, PackageRecord>)
    ensures 0 <= |UpgradableNames(packages)| <= |packages|
  {
    SubsetCardinality(UpgradableNames(packages), packages.Keys);
  }

  lemma {:induction false} SubsetCardinality(a: set<string>, b: set<string>)
    requires a <= b
    ensures |a| <= |b|
    decreases |b|
  {
    if b != {} {
      var x :| x in b;
      SubsetCardinality(a - {x}, b - {x});
    }
  }

  function DescribeUpdateGuiAction(): string {
    "Run gpk-&update-viewer"
  }

  /** detected: "Debian" occurs in the output of `lsb_release -a`. */
  predicate Detected(lsbReleaseOutput: string) {
    Contains(lsbReleaseOutput, "Debian")
  }

  lemma DetectedIffDebianOccurs(lsbReleaseOutput: string)
    ensures Detected(lsbReleaseOutput) <==> IsSubstring("Debian", lsbReleaseOutput)
  {
    ContainsIsSubstring(lsbReleaseOutput, "Debian");
  }

  function CommandLineName(): string {
    "debian"
  }

  /** get_check_interval_seconds: the local cache is cheap to ask, so one minute. */
  function CheckIntervalSeconds(): (seconds: nat)
    ensures seconds == 60
  {
    60
  }

  /** start_update_gui: the argument vector of the graphical updater it launches. */
  function StartUpdateGuiArgv(): seq<string> {
    ["gpk-update-viewer"]
  }

  /** An apt.Cache object: the package records it read and whether it is open. */
  class AptCache {
    /** Whether this apt version's Cache class has a `close` method. */
    const hasClose: bool
    var packages: map<string, PackageRecord>
    var isOpen: bool

    /** apt.Cache(): reads the package lists. */
    constructor (hasClose: bool, packages: map<string, PackageRecord>)
      ensures this.hasClose == hasClose && this.packages == packages && isOpen
    {
      this.hasClose := hasClose;
      this.packages := packages;
      isOpen := true;
    }

    /** cache.open(): (re)reads the package lists. */
    method Open(packages: map<string, PackageRecord>)
      modifies this
      ensures isOpen && this.packages == packages
    {
      this.packages := packages;
      isOpen := true;
    }

    /** cache.close(), where apt provides it. */
    method Close()
      requires hasClose
      modifies this`isOpen
      ensures !isOpen
    {
      isOpen := false;
    }
  }

  /** The apt library as debian.py sees it, with the module's `_cache_instance`. */
  class AptLibrary {
    /** hasattr(apt.Cache, 'close'). */
    const cacheHasClose: bool
    var cacheInstance: AptCache?
    /** How many apt.Cache objects the backend has created. */
    var cachesCreated: nat

    /** Without `close` there is at most one cache, the module-wide one; with
        `close` the module-wide one is never set. */
    ghost predicate Valid()
      reads this, cacheInstance
    {
      && (cacheHasClose ==> cacheInstance == null)
      && (!cacheHasClose ==> cachesCreated <= 1 && (cacheInstance == null <==> cachesCreated == 0))
      && (cacheInstance != null ==> cacheInstance.hasClose == cacheHasClose)
    }

    constructor (cacheHasClose: bool)
      ensures Valid()
      ensures this.cacheHasClose == cacheHasClose && cacheInstance == null && cachesCreated == 0
    {
      this.cacheHasClose := cacheHasClose;
      cacheInstance := null;
      cachesCreated := 0;
    }

    /** _open_apt_cache: a fresh, acquired cache when caches can be closed;
        otherwise the module-wide cache, created on first use and reopened. */
    method OpenAptCache(packages: map<string, PackageRecord>) returns (cache: AptCache)
      requires Valid()
      modifies this, cacheInstance
      ensures Valid()
      ensures cache.isOpen && cache.packages == packages && cache.hasClose == cacheHasClose
      ensures cacheHasClose ==> fresh(cache) && cacheInstance == null && cachesCreated == old(cachesCreated) + 1
      ensures !cacheHasClose ==> cacheInstance == cache
      ensures !cacheHasClose && old(cacheInstance) != null ==> cache == old(cacheInstance) && cachesCreated == old(cachesCreated)
      ensures !cacheHasClose && old(cacheInstance) == null ==> fresh(cache) && cachesCreated == 1
    {
      if cacheHasClose {
        cache := new AptCache(cacheHasClose, packages);
        cache.Open(packages);
        cachesCreated := cachesCreated + 1;
      } else {
        if cacheInstance == null {
          cacheInstance := new AptCache(cacheHasClose, packages);
          cachesCreated := cachesCreated + 1;
        }
        cacheInstance.Open(packages);
        cache := cacheInstance;
      }
    }

    /** _close_apt_cache: close the cache if it can be closed, else nothing. */
    method CloseAptCache(cache: AptCache)
      modifies cache
      ensures cache.hasClose ==> !cache.isOpen && cache.packages == old(cache.packages)
      ensures !cache.hasClose ==> unchanged(cache)
    {
      if cache.hasClose {
        cache.Close();
      }
    }
  }

  /** The upgradable packages among `names`. */
  function UpgradableAmong(packages: map<string, PackageRecord>, names: set<string>): set<string> {
    set name | name in names && name in packages && packages[name] == Record(true)
  }

  /** Looking at one more name adds it to the upgradable ones exactly when its
      record says so. */
  lemma UpgradableAmongInsert(packages: map<string, PackageRecord>, seen: set<string>, name: string)
    requires name in packages && name !in seen
    ensures packages[name] == Record(true) ==>
      UpgradableAmong(packages, seen + {name}) == UpgradableAmong(packages, seen) + {name}
      && |UpgradableAmong(packages, seen + {name})| == |UpgradableAmong(packages, seen)| + 1
    ensures packages[name] != Record(true) ==>
      UpgradableAmong(packages, seen + {name}) == UpgradableAmong(packages, seen)
  {
    if packages[name] == Record(true) {
      assert UpgradableAmong(packages, seen + {name}) == UpgradableAmong(packages, seen) + {name};
      assert name !in UpgradableAmong(packages, seen);
    } else {
      assert UpgradableAmong(packages, seen + {name}) == UpgradableAmong(packages, seen);
    }
  }

  /** The body of the `try`: count the cache's upgradable packages, key by
      key; reading a record that raises ends the loop with an error. */
  method CountUpgradable(cache: AptCache) returns (r: CountResult)
    ensures r == if AllReadable(cache.packages) then Count(|UpgradableNames(cache.packages)|) else CacheError
  {
    var count := 0;
    var names := cache.packages.Keys;
    ghost var seen: set<string> := {};
    var failed := false;
    while names != {} && !failed
      invariant names + seen == cache.packages.Keys && names !! seen
      invariant count == |UpgradableAmong(cache.packages, seen)|
      invariant !failed ==> forall name :: name in seen ==> cache.packages[name].Record?
      invariant failed ==> !AllReadable(cache.packages)
      decreases names
    {
      var name :| name in names;
      UpgradableAmongInsert(cache.packages, seen, name);
      match cache.packages[name] {
        case Unreadable =>
          failed := true;
        case Record(upgradable) =>
          if upgradable {
            count := count + 1;
          }
      }
      names := names - {name};
      seen := seen + {name};
    }
    if failed {
      r := CacheError;
    } else {
      assert UpgradableAmong(cache.packages, seen) == UpgradableNames(cache.packages);
      r := Count(count);
    }
  }

  /** get_updateable_package_count: open a cache, count its upgradable
      packages, and close the cache in a `finally`, so also when reading a
      record raises.  `packages` is the package state the cache reads. */
  method GetUpdateablePackageCount(apt: AptLibrary, packages: map<string, PackageRecord>)
    returns (r: CountResult, ghost cache: AptCache)
    requires apt.Valid()
    modifies apt, apt.cacheInstance
    ensures apt.Valid()
    ensures r == if AllReadable(packages) then Count(|UpgradableNames(packages)|) else CacheError
    ensures cache.packages == packages && cache.hasClose == apt.cacheHasClose
    ensures cache.hasClose ==> !cache.isOpen && fresh(cache) && apt.cachesCreated == old(apt.cachesCreated) + 1
    ensures !cache.hasClose ==> cache.isOpen && apt.cacheInstance == cache
    ensures !cache.hasClose && old(apt.cacheInstance) != null ==> cache == old(apt.cacheInstance) && apt.cachesCreated == old(apt.cachesCreated)
    ensures !cache.hasClose && old(apt.cacheInstance) == null ==> fresh(cache) && apt.cachesCreated == 1
  {
    var c := apt.OpenAptCache(packages);
    cache := c;
    r := CountUpgradable(c);
    apt.CloseAptCache(c);
  }

  /** Two probes in a row: with `close`, each uses a cache of its own and both
      are closed; without it, both reuse the one module-wide cache, which stays
      open, and only one cache is ever created. */
  method TwoProbes(apt: AptLibrary, first: map<string, PackageRecord>, second: map<string, PackageRecord>)
    returns (r1: CountResult, r2: CountResult, ghost c1: AptCache, ghost c2: AptCache)
    requires apt.Valid() && apt.cacheInstance == null && apt.cachesCreated == 0
    modifies apt
    ensures r1 == if AllReadable(first) then Count(|UpgradableNames(first)|) else CacheError
    ensures r2 == if AllReadable(second) then Count(|UpgradableNames(second)|) else CacheError
    ensures apt.cachesCreated == if apt.cacheHasClose then 2 else 1
    ensures apt.cacheHasClose ==> c1 != c2 && !c1.isOpen && !c2.isOpen && apt.cacheInstance == null
    ensures !apt.cacheHasClose ==> c1 == c2 == apt.cacheInstance && c2.isOpen && c2.packages == second
  {
    r1, c1 := GetUpdateablePackageCount(apt, first);
    r2, c2 := GetUpdateablePackageCount(apt, second);
  }
}
