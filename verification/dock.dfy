/** The `Dock` service object of aidl/src/Dock.cpp: the profile table read at
    start-up, the selected power mode, the docked flag, and the AIDL calls
    that read and set them. */
module DockService {
  import opened CText
  import opened ProfileTable

  /** `PowerMode::HOS_STOCK`, the mode selected at start-up. Its number comes
      from the AIDL definition of `PowerMode`, which is not part of this model. */
  const HOS_STOCK: PowerMode

  datatype Option<T> = None | Some(value: T)

  /** How the constructor `Dock::Dock` (aidl/src/Dock.cpp:230-261) ended. */
  datatype Startup =
    | NoSku                         // ro.hardware or ro.boot.hardware.sku is empty
    | ConfigFailed(failure: Failure) // parseConfig did not return 0
    | Running                       // profile and docked set, polling started

  /** The keys of a table in ascending order: the order in which a
      `std::map` iterator visits them. */
  function SortedKeys(keys: set<PowerMode>): (r: seq<PowerMode>)
    ensures forall i :: 0 <= i < |r| ==> r[i] in keys
    decreases |keys|
  {
    if keys == {} then []
    else
      var m := Least(keys);
      [m] + SortedKeys(keys - {m})
  }

  /** SortedKeys lists every key, and nothing else, once. */
  lemma {:induction false} SortedKeysComplete(keys: set<PowerMode>)
    ensures |SortedKeys(keys)| == |keys|
    ensures forall k :: k in keys ==> k in SortedKeys(keys)
    decreases |keys|
  {
    if keys != {} {
      var m := Least(keys);
      var rest := SortedKeys(keys - {m});
      SortedKeysComplete(keys - {m});
      var r := [m] + rest;
      assert SortedKeys(keys) == r;
      forall k | k in keys
        ensures k in r
      {
        if k != m {
          assert k in keys - {m};
        }
      }
    }
  }

  /** SortedKeys lists the keys in strictly ascending order. */
  lemma {:induction false} SortedKeysAscending(keys: set<PowerMode>)
    ensures forall i, j :: 0 <= i < j < |SortedKeys(keys)| ==> SortedKeys(keys)[i] < SortedKeys(keys)[j]
    decreases |keys|
  {
    if keys != {} {
      var m := Least(keys);
      var rest := SortedKeys(keys - {m});
      SortedKeysAscending(keys - {m});
      var r := [m] + rest;
      assert SortedKeys(keys) == r;
      forall i, j | 0 <= i < j < |r|
        ensures r[i] < r[j]
      {
        if i == 0 {
          assert r[j] == rest[j - 1] && rest[j - 1] in keys - {m};
        } else {
          assert r[i] == rest[i - 1] && r[j] == rest[j - 1];
        }
      }
    }
  }

  function Least(keys: set<PowerMode>): (m: PowerMode)
    requires keys != {}
    ensures m in keys && forall k :: k in keys ==> m <= k
  {
    LeastExists(keys);
    var m :| m in keys && forall k :: k in keys ==> m <= k;
    m
  }

  lemma LeastExists(keys: set<PowerMode>)
    requires keys != {}
    ensures exists m :: m in keys && forall k :: k in keys ==> m <= k
  {
    var m := LeastOf(keys);
  }

  lemma {:induction false} LeastOf(keys: set<PowerMode>) returns (least: PowerMode)
    requires keys != {}
    ensures least in keys && forall k :: k in keys ==> least <= k
    decreases |keys|
  {
    var x :| x in keys;
    var others := keys - {x};
    if others == {} {
      assert keys == {x};
      return x;
    }
    var m := LeastOf(others);
    least := if x < m then x else m;
    forall k | k in keys
      ensures least <= k
    {
      if k != x {
        assert k in others;
      }
    }
  }

  /** Element `column` of the vector of each key in `keys`, in that order. */
  function Column(modes: ModeTable, keys: seq<PowerMode>, column: nat): (r: seq<Int32>)
    requires WellFormed(modes) && column < 2
    requires forall i :: 0 <= i < |keys| ==> keys[i] in modes
    ensures |r| == |keys|
    ensures forall i :: 0 <= i < |keys| ==> r[i] == modes[keys[i]][column]
    decreases |keys|
  {
    if keys == [] then [] else [modes[keys[0]][column]] + Column(modes, keys[1..], column)
  }

  class Dock {
    var hardware: string
    var sku: string
    var docked: bool
    var supportedModes: ModeTable
    var profile: PowerMode
    /** How construction ended; nothing in the service reads it. */
    ghost var startup: Startup

    /** Every vector holds the two values the frequency getters read. */
    ghost predicate Valid()
      reads this
    {
      WellFormed(supportedModes)
    }

    /** `Dock::Dock` (aidl/src/Dock.cpp:230-261) given the two system
        properties and the lines of the configuration file. Without both
        properties it returns before reading the file; when parseConfig
        fails it returns with whatever the table holds and without setting
        the mode or the docked flag; otherwise the mode is HOS_STOCK and the
        device counts as undocked. A `std::stoi` exception escapes, so the
        object is never used then; every other outcome leaves a table the
        getters can read. */
    constructor (hardware: string, sku: string, config: seq<string>)
      ensures this.hardware == hardware && this.sku == sku
      ensures hardware == [] || sku == [] ==> startup == NoSku && supportedModes == map[]
      ensures hardware != [] && sku != [] ==>
                startup != NoSku &&
                ParseLines(map[], config) ==
                  ParseResult(if startup == Running then Parsed else Failed(startup.failure), supportedModes)
      ensures startup == Running ==> profile == HOS_STOCK && !docked
      ensures !(startup.ConfigFailed? && startup.failure.StoiThrew?) ==> Valid()
    {
      this.hardware := hardware;
      this.sku := sku;
      supportedModes := map[];
      startup := NoSku;
      new;
      if hardware == [] || sku == [] {
        return;
      }
      var status := ParseConfig(config);
      if !(status.Failed? && status.failure.StoiThrew?) {
        ParseKeepsWellFormed(map[], config);
      }
      if status.Failed? {
        startup := ConfigFailed(status.failure);
        return;
      }
      profile := HOS_STOCK;
      docked := false;
      startup := Running;
    }

    /** `Dock::parseConfig` (aidl/src/Dock.cpp:88-126) over the lines of the
        file: the table ends as ParseLines says, and the status is 0 (Parsed)
        or the way the first failing line failed. */
    method ParseConfig(config: seq<string>) returns (status: ParseStatus)
      modifies this`supportedModes
      ensures ParseLines(old(supportedModes), config) == ParseResult(status, supportedModes)
    {
      var i := 0;
      while i < |config|
        invariant 0 <= i <= |config|
        invariant ParseLines(old(supportedModes), config) == ParseLines(supportedModes, config[i..])
      {
        var line := config[i];
        ParseLinesCons(supportedModes, config[i..]);
        assert config[i..][1..] == config[i + 1..];
        i := i + 1;
        if line != [] && line[0] == '#' {  // a line starting with '#' is not read
          continue;
        }
        if line == [] {  // nor is an empty line
          continue;
        }
        var tokens := SplitTokens(line);
        if |tokens| > 4 || |tokens| < 3 {
          return Failed(Rejected);
        }
        var outcome := PushLine(tokens);
        if outcome.Some? {
          return Failed(outcome.value);
        }
      }
      assert config[i..] == [];
      return Parsed;
    }

    /** Lines 113-122 of aidl/src/Dock.cpp on the tokens of one line: the
        table changes as ParseTokens says, and a failure stops the loop. */
    method PushLine(tokens: seq<string>) returns (failure: Option<Failure>)
      requires 3 <= |tokens| <= 4
      modifies this`supportedModes
      ensures ParseTokens(old(supportedModes), tokens) ==
              if failure.None? then Next(supportedModes) else Halt(failure.value, supportedModes)
    {
      var id := Stoi(tokens[0]);
      if id.Threw? {
        return Some(StoiThrew(id.error));
      }
      var index := id.value;
      if index !in supportedModes {
        supportedModes := supportedModes[index := []];
      }
      var v1 := Stoi(tokens[1]);
      if v1.Threw? {
        return Some(StoiThrew(v1.error));
      }
      supportedModes := supportedModes[index := supportedModes[index] + [v1.value]];
      var v2 := Stoi(tokens[2]);
      if v2.Threw? {
        return Some(StoiThrew(v2.error));
      }
      supportedModes := supportedModes[index := supportedModes[index] + [v2.value]];
      if |tokens| == 4 {
        // `stoi(tokens[4])` reads past the end of a four-element vector
        return Some(TokenIndexOutOfBounds);
      }
      return None;
    }

    /** `Dock::setPowerMode` (aidl/src/Dock.cpp:46-49): stores any mode,
        whether or not the table has an entry for it, and always succeeds. */
    method SetPowerMode(mode: PowerMode)
      modifies this`profile
      ensures profile == mode
    {
      profile := mode;
    }

    /** `Dock::getPowerMode` (aidl/src/Dock.cpp:51-54). */
    method GetPowerMode() returns (mode: PowerMode)
      ensures mode == profile
    {
      mode := profile;
    }

    /** `Dock::getDockedState` (aidl/src/Dock.cpp:83-86). */
    method GetDockedState() returns (isDocked: bool)
      ensures isDocked == docked
    {
      isDocked := docked;
    }

    /** `Dock::getAvailableModes` (aidl/src/Dock.cpp:56-63): appends every key
        of the table, in ascending order, to the caller's vector `out`. */
    method GetAvailableModes(out: seq<PowerMode>) returns (r: seq<PowerMode>)
      ensures r == out + SortedKeys(supportedModes.Keys)
    {
      var keys := SortedKeys(supportedModes.Keys);
      r := out;
      for j := 0 to |keys|
        invariant r == out + keys[..j]
      {
        assert keys[..j + 1] == keys[..j] + [keys[j]];
        r := r + [keys[j]];
      }
      assert keys[..|keys|] == keys;
    }

    /** `Dock::getAvailableCpuFreqs` (aidl/src/Dock.cpp:65-72): appends
        element 1 of the vector of every key, in ascending key order. */
    method GetAvailableCpuFreqs(out: seq<Int32>) returns (r: seq<Int32>)
      requires Valid()
      ensures r == out + Column(supportedModes, SortedKeys(supportedModes.Keys), 1)
    {
      var keys := SortedKeys(supportedModes.Keys);
      ghost var all := Column(supportedModes, keys, 1);
      r := out;
      for j := 0 to |keys|
        invariant r == out + all[..j]
      {
        assert all[..j + 1] == all[..j] + [supportedModes[keys[j]][1]];
        r := r + [supportedModes[keys[j]][1]];
      }
      assert all[..|keys|] == all;
    }

    /** `Dock::getAvailableGpuFreqs` (aidl/src/Dock.cpp:74-81): appends
        element 0 of the vector of every key, in ascending key order. */
    method GetAvailableGpuFreqs(out: seq<Int32>) returns (r: seq<Int32>)
      requires Valid()
      ensures r == out + Column(supportedModes, SortedKeys(supportedModes.Keys), 0)
    {
      var keys := SortedKeys(supportedModes.Keys);
      ghost var all := Column(supportedModes, keys, 0);
      r := out;
      for j := 0 to |keys|
        invariant r == out + all[..j]
      {
        assert all[..j + 1] == all[..j] + [supportedModes[keys[j]][0]];
        r := r + [supportedModes[keys[j]][0]];
      }
      assert all[..|keys|] == all;
    }
  }
}
