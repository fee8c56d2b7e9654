/**
 * Serial device names: the names offered for selection are the last
 * '/'-separated segment of each enumerated port, and the device opened is
 * that name under "/dev/" on Unix, the name itself elsewhere.
 */
module SerialPorts {
  import opened Wrappers

  const DevDirectory: string := "/dev/"

  /** An enumerated serial port, known by its system name. */
  datatype SerialPortInfo = SerialPortInfo(portName: string)

  /** `s` holds no '/'. */
  predicate NoSlash(s: string) {
    forall i :: 0 <= i < |s| ==> s[i] != '/'
  }

  /** The device path opened for the selected port name. */
  function DevicePath(comPort: string, unix: bool): (path: string)
    ensures unix ==> |path| == |DevDirectory| + |comPort| && path[..|DevDirectory|] == DevDirectory
    ensures !unix ==> path == comPort
    ensures |path| >= |comPort| && path[|path| - |comPort|..] == comPort
  {
    if unix then DevDirectory + comPort else comPort
  }

  /** The last '/'-separated segment of `name`: a suffix of it holding no '/'. */
  function LastSegment(name: string): (seg: string)
    ensures |seg| <= |name| && name[|name| - |seg|..] == seg
    ensures NoSlash(seg)
  {
    if name == [] then []
    else if name[|name| - 1] == '/' then []
    else LastSegment(name[..|name| - 1]) + [name[|name| - 1]]
  }

  /** The last segment is the longest such suffix: all of `name`, or preceded by a '/'. */
  lemma {:induction false} LastSegmentIsLongest(name: string)
    ensures var seg := LastSegment(name);
      |seg| == |name| || name[|name| - |seg| - 1] == '/'
    decreases |name|
  {
    if name != [] && name[|name| - 1] != '/' {
      var init := name[..|name| - 1];
      LastSegmentIsLongest(init);
      var seg := LastSegment(init);
      if |seg| < |init| {
        assert name[|name| - |seg| - 2] == init[|init| - |seg| - 1];
      }
    }
  }

  /** A name without '/' is its own last segment. */
  lemma {:induction false} LastSegmentOfPlainName(name: string)
    requires NoSlash(name)
    ensures LastSegment(name) == name
  {
    LastSegmentIsLongest(name);
  }

  /** Whatever precedes a last '/' does not change the last segment. */
  lemma {:induction false} LastSegmentAfterSlash(prefix: string, name: string)
    requires |prefix| > 0 && prefix[|prefix| - 1] == '/'
    ensures LastSegment(prefix + name) == LastSegment(name)
    decreases |name|
  {
    if name == [] {
      assert prefix + name == prefix;
    } else {
      var whole := prefix + name;
      assert whole[..|whole| - 1] == prefix + name[..|name| - 1];
      assert whole[|whole| - 1] == name[|name| - 1];
      LastSegmentAfterSlash(prefix, name[..|name| - 1]);
    }
  }

  /**
   * The device path keeps the port's last segment: the name picked from the
   * list, opened under "/dev/", is again the name listed.
   */
  lemma DevicePathKeepsName(comPort: string, unix: bool)
    ensures LastSegment(DevicePath(comPort, unix)) == LastSegment(comPort)
  {
    if unix {
      LastSegmentAfterSlash(DevDirectory, comPort);
    }
  }

  /** A name from the list opens the enumerated device whose last segment it is. */
  lemma ListedNameReopens(portName: string, unix: bool)
    ensures LastSegment(DevicePath(LastSegment(portName), unix)) == LastSegment(portName)
  {
    DevicePathKeepsName(LastSegment(portName), unix);
    LastSegmentOfPlainName(LastSegment(portName));
  }

  /**
   * The names offered for selection: none when enumeration fails, otherwise
   * one per enumerated port, in order, each its last segment.
   */
  method ListSerial(ports: Result<seq<SerialPortInfo>, string>) returns (names: seq<string>)
    ensures ports.Err? ==> names == []
    ensures ports.Ok? ==> |names| == |ports.value|
    ensures ports.Ok? ==> forall i :: 0 <= i < |names| ==> names[i] == LastSegment(ports.value[i].portName)
  {
    if ports.Err? {
      return [];
    }
    var found := ports.value;
    names := [];
    for i := 0 to |found|
      invariant |names| == i
      invariant forall j :: 0 <= j < i ==> names[j] == LastSegment(found[j].portName)
    {
      names := names + [LastSegment(found[i].portName)];
    }
  }
}
