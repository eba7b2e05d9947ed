/**
 The channel bookkeeping of `DeviceManager` (sdk_core/device_manager.cpp): which sockets are open, who owns
 each of them, and what the maps from addresses to sockets say. Creating a socket may fail at any time.
 */
module DeviceManager {
  import opened Json
  import opened JsonText
  import opened Writer

  const LOG_PORT := 0
  const DETECTION_PORT := 56000
  const HOST_DEBUG_POINT_CLOUD_PORT := 44332
  const PA_HOST_FAULT_PORT := 42867
  const LIDAR_POINT_CLOUD_PORT := 56300
  const LIDAR_IMU_DATA_PORT := 56400

  const TYPE_MID360 := 9
  const TYPE_PA := 16
  const TYPE_MID360S := 35
  const TYPE_AVIA2 := 40
  const TYPE_MID360L := 41

  /** The device types whose status messages also go to a multicast group and to the broadcast address. */
  predicate IsMid360Like(devType: nat): (r: bool)
    ensures r <==> devType in {9, 35, 40, 41}
  {
    devType == TYPE_MID360 || devType == TYPE_MID360S || devType == TYPE_AVIA2 || devType == TYPE_MID360L
  }

  datatype HostNetInfo = HostNetInfo(hostIp: string, multicastIp: string, cmdPort: nat, pointPort: nat,
                                     imuPort: nat, pushPort: nat, logPort: nat)

  /** `handle` is the address of the device as a number. */
  datatype LidarCfg = LidarCfg(deviceType: nat, handle: nat, host: HostNetInfo)

  /** The key of a channel: host address and port, and the multicast group if there is one. */
  datatype ChannelKey = ChannelKey(host: string, port: nat, multicast: string)

  datatype ViewDevice = ViewDevice(devType: nat, cmdPort: nat, isGet: bool, isSet: bool)

  /** The ports that a device reports about itself and its host. */
  datatype Ports = Ports(hostPoint: nat, lidarPoint: nat, hostImu: nat, lidarImu: nat)

  const KEY_POINT_DATA_HOST := 6
  const KEY_IMU_HOST := 7

  /** A parameter of a response, with the bytes of its value. */
  datatype KeyValue = KeyValue(key: nat, value: seq<nat>)

  /** The parameters that carry ports have a value that holds an address and two ports. */
  predicate PortsPresent(params: seq<KeyValue>) {
    forall kv <- params :: kv.key == KEY_POINT_DATA_HOST || kv.key == KEY_IMU_HOST ==> |kv.value| >= 8
  }

  /** A 16-bit number, low byte first. */
  function Short(bytes: seq<nat>, at: nat): nat
    requires at + 2 <= |bytes|
  {
    bytes[at] + 256 * bytes[at + 1]
  }

  /** Its bytes, the low one first, give the number back. */
  lemma ShortMeans(n: nat)
    requires n < 0x10000
    ensures Short([n % 256, n / 256], 0) == n
  {
  }

  /** The last parameter with that key, if there is one. */
  function LastOf(params: seq<KeyValue>, key: nat): (kv: Option<KeyValue>)
    ensures kv.Some? ==> kv.value in params && kv.value.key == key
    ensures kv.None? ==> forall k <- params :: k.key != key
  {
    if params == [] then None
    else if params[|params| - 1].key == key then Some(params[|params| - 1])
    else LastOf(params[..|params| - 1], key)
  }

  /** Host and device port from the last parameter with that key, zero without one. */
  function PortPair(params: seq<KeyValue>, key: nat): (nat, nat)
    requires PortsPresent(params) && (key == KEY_POINT_DATA_HOST || key == KEY_IMU_HOST)
  {
    match LastOf(params, key)
    case None => (0, 0)
    case Some(kv) => (Short(kv.value, 4), Short(kv.value, 6))
  }

  function Reported(params: seq<KeyValue>): Ports
    requires PortsPresent(params)
  {
    var point, imu := PortPair(params, KEY_POINT_DATA_HOST), PortPair(params, KEY_IMU_HOST);
    Ports(point.0, point.1, imu.0, imu.1)
  }

  lemma NoParameters()
    ensures Reported([]) == Ports(0, 0, 0, 0)
  {
  }

  /** One turn of the loop over the parameters. */
  lemma NextParameter(params: seq<KeyValue>, i: nat)
    requires i < |params| && PortsPresent(params)
    ensures PortsPresent(params[..i]) && PortsPresent(params[..i + 1])
    ensures params[i].key != KEY_POINT_DATA_HOST && params[i].key != KEY_IMU_HOST ==>
              Reported(params[..i + 1]) == Reported(params[..i])
    ensures params[i].key == KEY_POINT_DATA_HOST ==>
              Reported(params[..i + 1])
              == Reported(params[..i]).(hostPoint := Short(params[i].value, 4), lidarPoint := Short(params[i].value, 6))
    ensures params[i].key == KEY_IMU_HOST ==>
              Reported(params[..i + 1])
              == Reported(params[..i]).(hostImu := Short(params[i].value, 4), lidarImu := Short(params[i].value, 6))
  {
    hide Short;
    assert params[..i + 1][..i] == params[..i];
  }

  datatype ViewLidarIpInfo = ViewLidarIpInfo(devType: nat, lidarCmdPort: nat, hostIp: string, ports: Ports)

  /** What the manager asks the command handler to do. */
  datatype Request = Nothing | QueryInternalInfo | UpdateLidarCfg(info: ViewLidarIpInfo) | MissingInfo | InfoChange

  /** One owner for a socket held in a field, none for a field that holds no socket. */
  function Held(sock: int): multiset<int> {
    if sock > 0 then multiset{sock} else multiset{}
  }

  /** The descriptors from 1 to `n` are only open if there are `n` of them. */
  lemma {:induction false} Packed(open: set<int>, n: nat)
    requires forall i :: 1 <= i <= n ==> i in open
    ensures n <= |open|
  {
    if n > 0 {
      Packed(open - {n}, n - 1);
    }
  }

  /** There is always a free descriptor. */
  lemma FreeDescriptor(open: set<int>)
    ensures exists sock: int :: sock > 0 && sock !in open
  {
    if forall i :: 1 <= i <= |open| + 1 ==> i in open {
      Packed(open, |open| + 1);
    }
  }

  /** The owners of sockets, each as often as it is owned: two lists, two fields, and those left without one. */
  ghost predicate OwnedOnce(open: set<int>, vec: seq<int>, broadcasts: seq<int>, detection: int, broadcast: int,
                            leaked: multiset<int>)
  {
    multiset(vec) + multiset(broadcasts) + Held(detection) + Held(broadcast) + leaked == multiset(open)
  }

  lemma OpenOne(open: set<int>, sock: int)
    requires sock !in open
    ensures multiset(open + {sock}) == multiset(open) + multiset{sock}
  {
  }

  lemma PushOwner(open: set<int>, vec: seq<int>, broadcasts: seq<int>, detection: int, broadcast: int,
                  leaked: multiset<int>, sock: int)
    requires OwnedOnce(open, vec, broadcasts, detection, broadcast, leaked) && sock !in open
    ensures OwnedOnce(open + {sock}, vec + [sock], broadcasts, detection, broadcast, leaked)
    ensures OwnedOnce(open + {sock}, vec, broadcasts + [sock], detection, broadcast, leaked)
  {
    OpenOne(open, sock);
    assert multiset(vec + [sock]) == multiset(vec) + multiset{sock};
    assert multiset(broadcasts + [sock]) == multiset(broadcasts) + multiset{sock};
  }

  /** What was held before is leaked. */
  function Leak(leaked: multiset<int>, was: int): multiset<int> {
    if was > 0 then leaked + multiset{was} else leaked
  }

  /** A field that is overwritten leaks what it held. */
  lemma ReplaceHeld(open: set<int>, vec: seq<int>, broadcasts: seq<int>, detection: int, broadcast: int,
                    leaked: multiset<int>, sock: int)
    requires OwnedOnce(open, vec, broadcasts, detection, broadcast, leaked) && (sock > 0 ==> sock !in open)
    ensures var now := if sock > 0 then open + {sock} else open;
            && OwnedOnce(now, vec, broadcasts, sock, broadcast, Leak(leaked, detection))
            && OwnedOnce(now, vec, broadcasts, detection, sock, Leak(leaked, broadcast))
  {
    if sock > 0 {
      OpenOne(open, sock);
    }
  }

  predicate NoDuplicates(s: seq<int>) {
    forall i, j :: 0 <= i < j < |s| ==> s[i] != s[j]
  }

  function Members(s: seq<int>): (m: set<int>)
    ensures forall x :: x in m <==> x in s
  {
    set x <- s
  }

  function Listed(sock: int): seq<int> {
    if sock > 0 then [sock] else []
  }

  lemma TwiceInSequence(s: seq<int>, i: nat, j: nat)
    requires i < j < |s| && s[i] == s[j]
    ensures multiset(s)[s[i]] >= 2
  {
    assert s == s[..j] + s[j..];
    assert s[..j][i] == s[i] && s[j..][0] == s[i];
    assert multiset(s) == multiset(s[..j]) + multiset(s[j..]);
  }

  /** A list whose elements are, with some more, exactly the elements of a set. */
  lemma ListOfSet(s: seq<int>, more: multiset<int>, open: set<int>)
    requires multiset(s) + more == multiset(open)
    ensures NoDuplicates(s) && Members(s) <= open && more == multiset(open - Members(s))
  {
    assert forall x :: multiset(s)[x] + more[x] == multiset(open)[x];
    forall x | x in s ensures x in open && more[x] == 0 {
      assert x in multiset(s);
    }
    forall i, j | 0 <= i < j < |s| ensures s[i] != s[j] {
      if s[i] == s[j] {
        TwiceInSequence(s, i, j);
      }
    }
    forall x ensures more[x] == multiset(open - Members(s))[x] {
      if x !in s {
        assert x !in multiset(s);
      }
    }
  }

  /** Closing the lists one after the other: each holds open sockets only, none twice. */
  lemma OwnedList(open: set<int>, vec: seq<int>, broadcasts: seq<int>, detection: int, broadcast: int,
                  leaked: multiset<int>)
    requires OwnedOnce(open, vec, broadcasts, detection, broadcast, leaked)
    ensures var open1 := open - Members(vec);
            && NoDuplicates(vec) && Members(vec) <= open
            && OwnedOnce(open1, [], broadcasts, detection, broadcast, leaked)
            && NoDuplicates(broadcasts) && Members(broadcasts) <= open1
            && OwnedOnce(open1 - Members(broadcasts), [], [], detection, broadcast, leaked)
  {
    var rest := multiset(broadcasts) + Held(detection) + Held(broadcast) + leaked;
    assert multiset(vec) + rest == multiset(open);
    ListOfSet(vec, rest, open);
    var rest1 := Held(detection) + Held(broadcast) + leaked;
    assert multiset(broadcasts) + rest1 == multiset(open - Members(vec));
    ListOfSet(broadcasts, rest1, open - Members(vec));
  }

  lemma OwnedFields(open: set<int>, detection: int, broadcast: int, leaked: multiset<int>)
    requires OwnedOnce(open, [], [], detection, broadcast, leaked)
    ensures var open1 := open - Members(Listed(detection));
            && (detection > 0 ==> detection in open) && (broadcast > 0 ==> broadcast in open1)
            && leaked == multiset(open1 - Members(Listed(broadcast)))
  {
    var s, rest := Listed(detection), Held(broadcast) + leaked;
    assert multiset(s) == Held(detection);
    assert multiset(s) + rest == multiset(open);
    ListOfSet(s, rest, open);
    assert multiset(Listed(broadcast)) == Held(broadcast);
    ListOfSet(Listed(broadcast), leaked, open - Members(s));
    assert detection > 0 ==> detection in s;
    assert broadcast > 0 ==> broadcast in Listed(broadcast);
  }

  lemma NothingOwned(open: set<int>, detection: int, broadcast: int, leaked: multiset<int>)
    requires detection <= 0 && broadcast <= 0 && leaked == multiset(open)
    ensures OwnedOnce(open, [], [], detection, broadcast, leaked)
  {
  }

  /** What `Destory` closes is, with what was leaked before, exactly what was open. */
  lemma ClosedOnce(open: set<int>, vec: seq<int>, broadcasts: seq<int>, detection: int, broadcast: int,
                   leaked: multiset<int>)
    requires OwnedOnce(open, vec, broadcasts, detection, broadcast, leaked)
    ensures var closed := vec + broadcasts + Listed(detection) + Listed(broadcast);
            NoDuplicates(closed) && multiset(closed) + leaked == multiset(open)
  {
    var closed := vec + broadcasts + Listed(detection) + Listed(broadcast);
    assert multiset(Listed(detection)) == Held(detection) && multiset(Listed(broadcast)) == Held(broadcast);
    assert multiset(closed)
           == multiset(vec) + multiset(broadcasts) + multiset(Listed(detection)) + multiset(Listed(broadcast));
    ListOfSet(closed, leaked, open);
  }

  /** The custom command channels are among the channels, with the same sockets, and none is multicast. */
  predicate Agree(custom: map<ChannelKey, int>, channels: map<ChannelKey, int>) {
    forall k <- custom :: k.multicast == "" && k in channels && custom[k] == channels[k]
  }

  /** Entering a channel that was not there, or one that is there among the custom ones. */
  lemma EnterAgree(custom: map<ChannelKey, int>, channels: map<ChannelKey, int>, key: ChannelKey, sock: int)
    requires Agree(custom, channels)
    ensures key !in channels ==> Agree(custom, channels[key := sock])
    ensures key !in channels && key.multicast == "" ==> Agree(custom[key := sock], channels[key := sock])
    ensures key in channels && key.multicast == "" ==> Agree(custom[key := channels[key]], channels)
  {
  }

  /** Overwriting a channel keeps the maps in agreement exactly when it is no custom channel, or has that socket. */
  lemma OverwriteAgree(custom: map<ChannelKey, int>, channels: map<ChannelKey, int>, key: ChannelKey, sock: int)
    requires Agree(custom, channels) && key.multicast == ""
    ensures key in custom ==> (Agree(custom, channels[key := sock]) <==> custom[key] == sock)
    ensures key !in custom ==> Agree(custom[key := sock], channels[key := sock])
  {
  }

  /** The channels are open sockets. */
  predicate AllOpen(open: set<int>, channels: map<ChannelKey, int>, commands: set<int>, data: set<int>) {
    && (forall k <- channels :: channels[k] in open && channels[k] > 0)
    && commands <= open && data <= open
    && forall s <- open :: s > 0
  }

  lemma CustomIsOpen(custom: map<ChannelKey, int>, open: set<int>, channels: map<ChannelKey, int>, commands: set<int>,
                     data: set<int>)
    requires Agree(custom, channels) && AllOpen(open, channels, commands, data)
    ensures forall key <- custom :: custom[key] in open
  {
  }

  lemma EnterOpen(open: set<int>, channels: map<ChannelKey, int>, commands: set<int>, data: set<int>,
                  key: ChannelKey, sock: int)
    requires AllOpen(open, channels, commands, data) && sock > 0
    ensures AllOpen(open + {sock}, channels, commands, data)
    ensures AllOpen(open + {sock}, channels[key := sock], commands, data)
    ensures AllOpen(open + {sock}, channels[key := sock], commands + {sock}, data)
    ensures AllOpen(open + {sock}, channels[key := sock], commands, data + {sock})
  {
  }

  /** The configuration at position `i` is the last one for its type. */
  predicate LastAt(cfgs: seq<LidarCfg>, i: int, c: LidarCfg) {
    && 0 <= i < |cfgs| && cfgs[i] == c
    && forall j :: i < j < |cfgs| ==> cfgs[j].deviceType != c.deviceType
  }

  /** The configuration of each type is the last one in the list for it. */
  predicate LastOfType(cfgs: seq<LidarCfg>, types: map<nat, LidarCfg>) {
    && (forall i :: 0 <= i < |cfgs| ==> cfgs[i].deviceType in types)
    && forall t <- types :: types[t].deviceType == t && IsLast(cfgs, types[t])
  }

  predicate IsLast(cfgs: seq<LidarCfg>, c: LidarCfg) {
    exists i | 0 <= i < |cfgs| :: LastAt(cfgs, i, c)
  }

  lemma StaysLast(cfgs: seq<LidarCfg>, c: LidarCfg, d: LidarCfg)
    requires IsLast(cfgs, c) && c.deviceType != d.deviceType
    ensures IsLast(cfgs + [d], c)
  {
    var i :| 0 <= i < |cfgs| && LastAt(cfgs, i, c);
    assert LastAt(cfgs + [d], i, c);
  }

  lemma NewIsLast(cfgs: seq<LidarCfg>, d: LidarCfg)
    ensures IsLast(cfgs + [d], d)
  {
    assert LastAt(cfgs + [d], |cfgs|, d);
  }

  lemma LastOfTypeStep(cfgs: seq<LidarCfg>, n: nat, types: map<nat, LidarCfg>)
    requires n < |cfgs| && LastOfType(cfgs[..n], types)
    ensures LastOfType(cfgs[..n + 1], types[cfgs[n].deviceType := cfgs[n]])
  {
    hide IsLast;
    var before, d := cfgs[..n], cfgs[n];
    assert cfgs[..n + 1] == before + [d];
    NewIsLast(before, d);
    forall t <- types | t != d.deviceType ensures IsLast(before + [d], types[t]) {
      StaysLast(before, types[t], d);
    }
  }

  /** How many of the devices have a broadcast socket of their own. */
  function Mid360Count(cfgs: seq<LidarCfg>): nat {
    if cfgs == [] then 0
    else Mid360Count(cfgs[..|cfgs| - 1]) + if IsMid360Like(cfgs[|cfgs| - 1].deviceType) then 1 else 0
  }

  lemma Mid360OneMore(cfgs: seq<LidarCfg>, i: nat)
    requires i < |cfgs|
    ensures Mid360Count(cfgs[..i + 1]) == Mid360Count(cfgs[..i]) + Mid360Count([cfgs[i]])
    ensures Mid360Count(cfgs[..|cfgs|]) == Mid360Count(cfgs)
  {
    assert cfgs[..i + 1][..i] == cfgs[..i] && [cfgs[i]][..0] == [] && cfgs[..|cfgs|] == cfgs;
  }

  /** At most this channel was added, and then its socket is among those its input loop listens to. */
  predicate Entered(now: map<ChannelKey, int>, was: map<ChannelKey, int>, key: ChannelKey, listened: set<int>,
                    listenedBefore: set<int>) {
    if now == was then listened == listenedBefore
    else
      && key !in was && key in now && now == was[key := now[key]]
      && listened == listenedBefore + {now[key]}
  }

  class DeviceManager {
    /** The sockets that the process has open. */
    var open: set<int>
    /** Every call of `CloseSock`, in order. */
    ghost var closings: seq<int>
    /** Open sockets that nobody owns any more. */
    ghost var leaked: multiset<int>
    /** How many creations of a socket have failed. */
    ghost var failures: nat

    var masterSdk: bool
    var logEnable: bool
    var isView: bool
    var detectionHostIp: string
    var typeCfgs: map<nat, LidarCfg>
    var customCfgMap: map<nat, LidarCfg>
    var customCfgs: seq<LidarCfg>
    var detectionSocket: int
    var detectionBroadcastSocket: int
    var socketVec: seq<int>
    var vecBroadcastSocket: seq<int>
    var channelInfo: map<ChannelKey, int>
    var customCommandChannel: map<ChannelKey, int>
    var commandChannel: set<int>
    var dataChannel: set<int>
    var lidarsDevType: map<nat, nat>
    var viewDevices: map<nat, ViewDevice>
    var viewLidarsInfo: map<nat, Option<ViewLidarIpInfo>>

    // -------------------------------------------------------------------------------------------
    // Invariants
    // -------------------------------------------------------------------------------------------

    /** Every open socket has exactly one owner or is leaked; nothing else is owned. */
    ghost predicate Conserved()
      reads this`open, this`leaked
      reads this`socketVec, this`vecBroadcastSocket, this`detectionSocket, this`detectionBroadcastSocket
    {
      OwnedOnce(open, socketVec, vecBroadcastSocket, detectionSocket, detectionBroadcastSocket, leaked)
    }

    /** The custom command channels are among the channels, with the same sockets, and none is multicast. */
    ghost predicate Agrees()
      reads this`customCommandChannel, this`channelInfo
    {
      Agree(customCommandChannel, channelInfo)
    }

    /** No map or set names a socket that is closed. */
    ghost predicate NoneDangling()
      reads this`open, this`channelInfo, this`commandChannel, this`dataChannel
    {
      AllOpen(open, channelInfo, commandChannel, dataChannel)
    }

    /** A device that was asked for its addresses has a record of them. */
    ghost predicate ViewsKnown()
      reads this`viewDevices, this`viewLidarsInfo
    {
      forall h <- viewDevices :: viewDevices[h].isGet ==> h in viewLidarsInfo && viewLidarsInfo[h].Some?
    }

    /** The configured devices by their handles are among the configured devices. */
    ghost predicate Configured()
      reads this`customCfgMap, this`customCfgs
    {
      forall h <- customCfgMap :: customCfgMap[h].handle == h && customCfgMap[h] in customCfgs
    }

    ghost predicate Inv()
      reads this
    {
      Conserved() && Agrees() && NoneDangling() && ViewsKnown() && Configured()
    }

    /** A command channel exists for the port, if the host has an address and the port is one. */
    ghost predicate HasCommand(host: string, port: nat)
      reads this`channelInfo, this`customCommandChannel
    {
      host != "" && port != LOG_PORT ==>
        ChannelKey(host, port, "") in channelInfo && ChannelKey(host, port, "") in customCommandChannel
    }

    ghost predicate HasData(host: string, port: nat)
      reads this`channelInfo
    {
      host != "" && port != LOG_PORT && port != DETECTION_PORT ==> ChannelKey(host, port, "") in channelInfo
    }

    /** The channels for the data of a device exist. */
    ghost predicate DataLinked(host: HostNetInfo)
      reads this`channelInfo
    {
      && HasData(host.hostIp, host.pointPort) && HasData(host.hostIp, host.imuPort)
      && HasData(host.hostIp, HOST_DEBUG_POINT_CLOUD_PORT)
    }

    /** The channels for its messages exist: of status always, of commands where this SDK sends them, of its multicast
        group, its faults and its logs where it has them. */
    ghost predicate CommandLinked(devType: nat, host: HostNetInfo)
      reads this`channelInfo, this`customCommandChannel, this`masterSdk, this`logEnable
    {
      && HasCommand(host.hostIp, host.pushPort)
      && (masterSdk ==> HasCommand(host.hostIp, host.cmdPort))
      && (IsMid360Like(devType) && host.multicastIp != "" && host.hostIp != "" && host.pushPort != LOG_PORT ==>
            ChannelKey(host.hostIp, host.pushPort, host.multicastIp) in channelInfo)
      && (devType == TYPE_PA ==> HasCommand(host.hostIp, PA_HOST_FAULT_PORT))
      && (logEnable ==> HasCommand(host.hostIp, host.logPort))
    }

    /** The keys that the channels for its messages may have. */
    ghost predicate Asked(devType: nat, host: HostNetInfo, k: ChannelKey)
      reads this`masterSdk, this`logEnable
    {
      && k.host == host.hostIp
      && ((k.multicast == "" && k.port == host.pushPort)
          || (k.multicast == "" && k.port == host.cmdPort && masterSdk)
          || (k.multicast == "" && k.port == PA_HOST_FAULT_PORT && devType == TYPE_PA)
          || (k.multicast == "" && k.port == host.logPort && logEnable)
          || (k.multicast == host.multicastIp != "" && k.port == host.pushPort && IsMid360Like(devType)))
    }

    ghost predicate Linked(cfg: LidarCfg)
      reads this`channelInfo, this`customCommandChannel, this`masterSdk, this`logEnable
    {
      DataLinked(cfg.host) && CommandLinked(cfg.deviceType, cfg.host)
    }

    ghost predicate AllLinked()
      reads this`channelInfo, this`customCommandChannel, this`masterSdk, this`logEnable, this`customCfgs
    {
      forall i :: 0 <= i < |customCfgs| ==> Linked(customCfgs[i])
    }

    /** As constructed or torn down: no channels. */
    ghost predicate Idle()
      reads this
    {
      && Inv() && socketVec == [] && vecBroadcastSocket == [] && detectionSocket <= 0 && detectionBroadcastSocket <= 0
      && channelInfo == map[] && customCommandChannel == map[]
      && commandChannel == {} && dataChannel == {} && viewDevices == map[] && viewLidarsInfo == map[]
      && typeCfgs == map[] && customCfgMap == map[] && customCfgs == []
    }

    constructor ()
      ensures Idle() && open == {} && leaked == multiset{} && closings == []
      ensures !isView && detectionHostIp == "" && lidarsDevType == map[]
    {
      open, closings, leaked, failures := {}, [], multiset{}, 0;
      masterSdk, logEnable, isView, detectionHostIp := true, false, false, "";
      typeCfgs, customCfgMap, customCfgs := map[], map[], [];
      detectionSocket, detectionBroadcastSocket := 0, 0;
      socketVec, vecBroadcastSocket := [], [];
      channelInfo, customCommandChannel, commandChannel, dataChannel := map[], map[], {}, {};
      lidarsDevType, viewDevices, viewLidarsInfo := map[], map[], map[];
    }

    // -------------------------------------------------------------------------------------------
    // Sockets
    // -------------------------------------------------------------------------------------------

    /** `util::CreateSocket`: a fresh socket, or a failure. */
    method CreateSocket() returns (sock: int)
      modifies this`open, this`failures
      ensures if sock < 0 then open == old(open) else sock > 0 && sock !in old(open) && open == old(open) + {sock}
      ensures failures == old(failures) + if sock < 0 then 1 else 0
    {
      if * {
        sock := -1;
        failures := failures + 1;
      } else {
        FreeDescriptor(open);
        sock :| sock > 0 && sock !in open;
        open := open + {sock};
      }
    }

    /** `util::CloseSock`: only an open socket is closed. */
    method CloseSock(sock: int)
      requires sock in open
      modifies this`open, this`closings
      ensures open == old(open) - {sock} && closings == old(closings) + [sock]
    {
      open := open - {sock};
      closings := closings + [sock];
    }

    // -------------------------------------------------------------------------------------------
    // Channels
    // -------------------------------------------------------------------------------------------

    /** A step fails exactly when the creation of a socket failed, and then goes no further. */
    ghost predicate Tried(ok: bool, before: nat)
      reads this`failures
    {
      failures == before + if ok then 0 else 1
    }

    /** The detection channel, from any state. What the two fields held before is leaked, each when its field is
        overwritten; and the command channels stop agreeing when an older one for the detection key stays. */
    method CreateDetectionChannel() returns (ok: bool)
      requires Inv()
      modifies this`open, this`failures, this`leaked, this`detectionBroadcastSocket, this`detectionSocket,
               this`channelInfo, this`customCommandChannel
      ensures Conserved() && NoneDangling() && ViewsKnown() && Configured() && Tried(ok, old(failures))
      ensures leaked == var first := Leak(old(leaked), old(detectionBroadcastSocket));
                        if detectionBroadcastSocket > 0 then Leak(first, old(detectionSocket)) else first
      ensures ok == (detectionBroadcastSocket > 0 && detectionSocket > 0)
      ensures Agrees() <==> !(ok && ChannelKey(detectionHostIp, DETECTION_PORT, "") in old(customCommandChannel))
    {
      hide Conserved, ViewsKnown, Configured, Agree, AllOpen, Leak;
      ok := OpenDetectionBroadcast();
      if !ok {
        return;
      }
      ok := OpenDetection();
      if ok {
        CustomIsOpen(customCommandChannel, old(open), channelInfo, commandChannel, dataChannel);
        EnterDetection();
      }
    }

    /** The detection socket becomes a channel, and a command channel if there is none for its key. */
    method EnterDetection()
      requires Agrees() && NoneDangling() && detectionSocket in open
      modifies this`channelInfo, this`customCommandChannel
      ensures NoneDangling()
      ensures var key := ChannelKey(detectionHostIp, DETECTION_PORT, ""); var custom := old(customCommandChannel);
              Agrees() <==> key !in custom || custom[key] == detectionSocket
    {
      hide Agree;
      var key := ChannelKey(detectionHostIp, DETECTION_PORT, "");
      OverwriteAgree(customCommandChannel, channelInfo, key, detectionSocket);
      channelInfo := channelInfo[key := detectionSocket];
      if key !in customCommandChannel {
        customCommandChannel := customCommandChannel[key := detectionSocket];
      }
    }

    /** The detection channel of a new session. */
    method StartDetection() returns (ok: bool)
      requires Inv() && detectionSocket <= 0 && detectionBroadcastSocket <= 0 && customCommandChannel == map[]
      modifies this`open, this`failures, this`leaked, this`detectionBroadcastSocket, this`detectionSocket,
               this`channelInfo, this`customCommandChannel
      ensures Inv() && leaked == old(leaked) && Tried(ok, old(failures))
      ensures ok ==> detectionBroadcastSocket > 0 && detectionSocket > 0
    {
      hide Conserved, NoneDangling, ViewsKnown, Configured, Agree;
      ok := CreateDetectionChannel();
    }

    method OpenDetectionBroadcast() returns (ok: bool)
      requires Conserved()
      modifies this`open, this`failures, this`detectionBroadcastSocket, this`leaked
      ensures Conserved() && (old(NoneDangling()) ==> NoneDangling())
      ensures ok == (detectionBroadcastSocket > 0) && Tried(ok, old(failures))
      ensures leaked == Leak(old(leaked), old(detectionBroadcastSocket))
      ensures open == if ok then old(open) + {detectionBroadcastSocket} else old(open)
    {
      hide OwnedOnce;
      var sock := CreateSocket();
      ReplaceHeld(old(open), socketVec, vecBroadcastSocket, detectionSocket, detectionBroadcastSocket, leaked, sock);
      leaked := Leak(leaked, detectionBroadcastSocket);
      detectionBroadcastSocket := sock;
      ok := sock >= 0;
    }

    method OpenDetection() returns (ok: bool)
      requires Conserved()
      modifies this`open, this`failures, this`detectionSocket, this`leaked
      ensures Conserved() && (old(NoneDangling()) ==> NoneDangling())
      ensures ok == (detectionSocket > 0) && Tried(ok, old(failures))
      ensures leaked == Leak(old(leaked), old(detectionSocket))
      ensures open == if ok then old(open) + {detectionSocket} else old(open)
      ensures ok ==> detectionSocket !in old(open)
    {
      hide OwnedOnce;
      var sock := CreateSocket();
      ReplaceHeld(old(open), socketVec, vecBroadcastSocket, detectionSocket, detectionBroadcastSocket, leaked, sock);
      leaked := Leak(leaked, detectionSocket);
      detectionSocket := sock;
      ok := sock >= 0;
    }

    /** A socket owned by `socket_vec_`. */
    method CreateOwnedSocket() returns (sock: int)
      requires Conserved()
      modifies this`open, this`failures, this`socketVec
      ensures Conserved() && Tried(sock >= 0, old(failures))
      ensures if sock < 0 then open == old(open) && socketVec == old(socketVec)
              else sock > 0 && sock !in old(open) && open == old(open) + {sock} && socketVec == old(socketVec) + [sock]
    {
      hide OwnedOnce;
      sock := CreateSocket();
      if sock >= 0 {
        PushOwner(old(open), socketVec, vecBroadcastSocket, detectionSocket, detectionBroadcastSocket, leaked, sock);
        socketVec := socketVec + [sock];
      }
    }

    method CreateDataSocket(host: string, port: nat, multicast: string) returns (ok: bool)
      requires Inv()
      modifies this`open, this`failures, this`socketVec, this`channelInfo, this`dataChannel
      ensures Inv() && old(channelInfo.Keys) <= channelInfo.Keys && Tried(ok, old(failures))
      ensures ok ==> HasData(host, port)
      ensures Entered(channelInfo, old(channelInfo), ChannelKey(host, port, ""), dataChannel, old(dataChannel))
      ensures !ok ==> channelInfo == old(channelInfo) && open == old(open)
    {
      hide Conserved, ViewsKnown, Configured, Agree, AllOpen;
      if host == "" || port == LOG_PORT || port == DETECTION_PORT {
        return true;
      }
      var key := ChannelKey(host, port, "");
      if key in channelInfo {
        return true;
      }
      var sock := CreateOwnedSocket();
      if sock < 0 {
        return false;
      }
      EnterOpen(old(open), channelInfo, commandChannel, dataChannel, key, sock);
      EnterAgree(customCommandChannel, channelInfo, key, sock);
      channelInfo := channelInfo[key := sock];
      dataChannel := dataChannel + {sock};
      return true;
    }

    method CreateCmdSocket(host: string, port: nat, multicast: string) returns (ok: bool)
      requires Inv()
      modifies this`open, this`failures, this`socketVec, this`channelInfo, this`customCommandChannel,
               this`commandChannel
      ensures Inv() && old(channelInfo.Keys) <= channelInfo.Keys && Tried(ok, old(failures))
      ensures old(customCommandChannel.Keys) <= customCommandChannel.Keys
      ensures ok && host != "" && port != LOG_PORT ==> ChannelKey(host, port, multicast) in channelInfo
      ensures ok && multicast == "" ==> HasCommand(host, port)
      ensures Entered(channelInfo, old(channelInfo), ChannelKey(host, port, multicast), commandChannel,
                      old(commandChannel))
      ensures customCommandChannel.Keys <= old(customCommandChannel.Keys) + {ChannelKey(host, port, "")}
      ensures !ok ==> channelInfo == old(channelInfo) && customCommandChannel == old(customCommandChannel)
                      && open == old(open)
    {
      hide Conserved, ViewsKnown, Configured, Agree, AllOpen;
      if host == "" || port == LOG_PORT {
        return true;
      }
      var key := ChannelKey(host, port, multicast);
      if key in channelInfo {
        EnterAgree(customCommandChannel, channelInfo, key, 0);
        if multicast == "" && key !in customCommandChannel {
          customCommandChannel := customCommandChannel[key := channelInfo[key]];
        }
        return true;
      }
      var sock := CreateOwnedSocket();
      if sock < 0 {
        return false;
      }
      EnterOpen(old(open), channelInfo, commandChannel, dataChannel, key, sock);
      EnterAgree(customCommandChannel, channelInfo, key, sock);
      channelInfo := channelInfo[key := sock];
      commandChannel := commandChannel + {sock};
      if multicast == "" {
        customCommandChannel := customCommandChannel[key := sock];
      }
      return true;
    }

    /** A socket owned by `vec_broadcast_socket_`. */
    method CreateBroadcastSocket() returns (ok: bool)
      requires Inv()
      modifies this`open, this`failures, this`vecBroadcastSocket
      ensures Inv() && (!ok ==> open == old(open)) && Tried(ok, old(failures))
      ensures if ok then |vecBroadcastSocket| == |old(vecBroadcastSocket)| + 1
              else vecBroadcastSocket == old(vecBroadcastSocket)
    {
      hide OwnedOnce, Agrees, ViewsKnown, Configured, AllOpen;
      var sock := CreateSocket();
      ok := sock >= 0;
      if ok {
        EnterOpen(old(open), channelInfo, commandChannel, dataChannel, ChannelKey("", 0, ""), sock);
        PushOwner(old(open), socketVec, vecBroadcastSocket, detectionSocket, detectionBroadcastSocket, leaked, sock);
        vecBroadcastSocket := vecBroadcastSocket + [sock];
      }
    }

    method CreateDataChannel(host: HostNetInfo) returns (ok: bool)
      requires Inv()
      modifies this`open, this`failures, this`socketVec, this`channelInfo, this`dataChannel
      ensures Inv() && old(channelInfo.Keys) <= channelInfo.Keys && Tried(ok, old(failures))
      ensures ok ==> DataLinked(host)
    {
      hide Inv;
      ok := CreateDataSocket(host.hostIp, host.pointPort, host.multicastIp);
      if ok {
        ok := CreateDataSocket(host.hostIp, host.imuPort, host.multicastIp);
      }
      if ok {
        ok := CreateDataSocket(host.hostIp, HOST_DEBUG_POINT_CLOUD_PORT, host.multicastIp);
      }
    }

    /** The unicast channels of every device: for commands, if this is the master, and for status messages. */
    method CreateHostChannels(devType: nat, host: HostNetInfo) returns (ok: bool)
      requires Inv()
      modifies this`open, this`failures, this`socketVec, this`channelInfo, this`customCommandChannel,
               this`commandChannel
      ensures Inv() && old(channelInfo.Keys) <= channelInfo.Keys && Tried(ok, old(failures))
      ensures old(customCommandChannel.Keys) <= customCommandChannel.Keys
      ensures ok ==> HasCommand(host.hostIp, host.pushPort) && (masterSdk ==> HasCommand(host.hostIp, host.cmdPort))
      ensures forall k <- channelInfo :: k in old(channelInfo) || Asked(devType, host, k)
      ensures forall k <- customCommandChannel :: k in old(customCommandChannel) || Asked(devType, host, k)
    {
      hide Inv, Asked;
      AskedKeys(devType, host);
      if masterSdk {
        ok := CreateCmdSocket(host.hostIp, host.cmdPort, "");
        if !ok {
          return;
        }
      }
      ok := CreateCmdSocket(host.hostIp, host.pushPort, "");
    }

    /** Where commands of a device are sent from, once this succeeds. */
    method CreateCommandChannel(devType: nat, host: HostNetInfo) returns (ok: bool)
      requires Inv()
      modifies this`open, this`failures, this`socketVec, this`vecBroadcastSocket, this`channelInfo,
               this`customCommandChannel, this`commandChannel
      ensures Inv() && old(channelInfo.Keys) <= channelInfo.Keys && Tried(ok, old(failures))
      ensures old(customCommandChannel.Keys) <= customCommandChannel.Keys
      ensures ok ==> CommandLinked(devType, host)
      ensures forall k <- channelInfo :: k in old(channelInfo) || Asked(devType, host, k)
      ensures forall k <- customCommandChannel :: k in old(customCommandChannel) || Asked(devType, host, k)
      ensures ok ==> |vecBroadcastSocket| == |old(vecBroadcastSocket)| + if IsMid360Like(devType) then 1 else 0
    {
      hide Inv, Asked;
      AskedKeys(devType, host);
      ok := CreateHostChannels(devType, host);
      if !ok {
        return;
      }
      ok := CreateSpecialChannels(devType, host);
      if ok && logEnable {
        ok := CreateCmdSocket(host.hostIp, host.logPort, "");
      }
    }

    /** The channels of a multicast group, of faults and for broadcasts, by the type of the device. */
    method CreateSpecialChannels(devType: nat, host: HostNetInfo) returns (ok: bool)
      requires Inv()
      modifies this`open, this`failures, this`socketVec, this`vecBroadcastSocket, this`channelInfo,
               this`customCommandChannel, this`commandChannel
      ensures Inv() && old(channelInfo.Keys) <= channelInfo.Keys && Tried(ok, old(failures))
      ensures old(customCommandChannel.Keys) <= customCommandChannel.Keys
      ensures ok && IsMid360Like(devType) && host.multicastIp != "" && host.hostIp != ""
              && host.pushPort != LOG_PORT ==>
                ChannelKey(host.hostIp, host.pushPort, host.multicastIp) in channelInfo
      ensures ok && devType == TYPE_PA ==> HasCommand(host.hostIp, PA_HOST_FAULT_PORT)
      ensures forall k <- channelInfo :: k in old(channelInfo) || Asked(devType, host, k)
      ensures forall k <- customCommandChannel :: k in old(customCommandChannel) || Asked(devType, host, k)
      ensures ok ==> |vecBroadcastSocket| == |old(vecBroadcastSocket)| + if IsMid360Like(devType) then 1 else 0
    {
      hide Inv, Asked;
      AskedKeys(devType, host);
      ok := true;
      if host.multicastIp != "" && IsMid360Like(devType) {
        ok := CreateCmdSocket(host.hostIp, host.pushPort, host.multicastIp);
        if !ok {
          return;
        }
      }
      if devType == TYPE_PA {
        ok := CreateCmdSocket(host.hostIp, PA_HOST_FAULT_PORT, "");
        if !ok {
          return;
        }
      }
      if IsMid360Like(devType) {
        ok := CreateBroadcastSocket();
      }
    }

    lemma AskedKeys(devType: nat, host: HostNetInfo)
      ensures Asked(devType, host, ChannelKey(host.hostIp, host.pushPort, ""))
      ensures masterSdk ==> Asked(devType, host, ChannelKey(host.hostIp, host.cmdPort, ""))
      ensures devType == TYPE_PA ==> Asked(devType, host, ChannelKey(host.hostIp, PA_HOST_FAULT_PORT, ""))
      ensures logEnable ==> Asked(devType, host, ChannelKey(host.hostIp, host.logPort, ""))
      ensures IsMid360Like(devType) && host.multicastIp != "" ==>
                && Asked(devType, host, ChannelKey(host.hostIp, host.pushPort, host.multicastIp))
    {
    }

    /** The channels of one device; those of others stay. */
    method CreateDeviceChannels(cfg: LidarCfg) returns (ok: bool)
      requires Inv()
      modifies this`open, this`failures, this`socketVec, this`vecBroadcastSocket, this`channelInfo,
               this`customCommandChannel, this`commandChannel, this`dataChannel
      ensures Inv() && Tried(ok, old(failures)) && (ok ==> Linked(cfg))
      ensures ok ==> |vecBroadcastSocket| == |old(vecBroadcastSocket)| + Mid360Count([cfg])
      ensures forall c :: old(Linked(c)) ==> Linked(c)
    {
      hide Inv;
      ok := CreateDataChannel(cfg.host);
      if ok {
        ok := CreateCommandChannel(cfg.deviceType, cfg.host);
      }
    }

    /** The data and command channels of every configured device, until a creation fails. */
    method CreateChannels() returns (ok: bool)
      requires Inv()
      modifies this`open, this`failures, this`socketVec, this`vecBroadcastSocket, this`channelInfo,
               this`customCommandChannel, this`commandChannel, this`dataChannel
      ensures Inv() && Tried(ok, old(failures))
      ensures ok ==> AllLinked() && |vecBroadcastSocket| == |old(vecBroadcastSocket)| + Mid360Count(customCfgs)
    {
      hide Inv, Linked;
      for i := 0 to |customCfgs|
        invariant Inv() && failures == old(failures)
        invariant forall j :: 0 <= j < i ==> Linked(customCfgs[j])
        invariant |vecBroadcastSocket| == |old(vecBroadcastSocket)| + Mid360Count(customCfgs[..i])
      {
        Mid360OneMore(customCfgs, i);
        ok := CreateDeviceChannels(customCfgs[i]);
        if !ok {
          return;
        }
      }
      assert customCfgs[..|customCfgs|] == customCfgs;
      return true;
    }

    // -------------------------------------------------------------------------------------------
    // Sessions
    // -------------------------------------------------------------------------------------------

    /** `Init` in view mode; `ready` is whether the other managers and the threads could be started. */
    method InitView(hostIp: string, ready: bool) returns (ok: bool)
      requires Idle()
      modifies this
      ensures Inv() && leaked == old(leaked) && closings == old(closings)
      ensures isView && masterSdk && detectionHostIp == hostIp && customCfgs == []
      ensures ok == (ready && failures == old(failures))
      ensures ok ==> detectionSocket > 0 && detectionBroadcastSocket > 0
    {
      hide Conserved, NoneDangling, ViewsKnown, Configured, Agree;
      masterSdk, isView, detectionHostIp := true, true, hostIp;
      if !ready {
        return false;
      }
      ok := StartDetection();
    }

    /** The settings of a session, and the address that detection runs from. */
    method Configure(lidars: seq<LidarCfg>, customList: seq<LidarCfg>, master: bool, log: bool) returns (ok: bool)
      requires customCfgMap == map[] && typeCfgs == map[]
      modifies this`isView, this`typeCfgs, this`customCfgMap, this`customCfgs, this`masterSdk, this`logEnable,
               this`detectionHostIp
      ensures ok == (lidars != [] || customList != [])
      ensures ok ==> detectionHostIp == (if lidars != [] then lidars[0] else customList[0]).host.hostIp
      ensures customCfgs == customList && masterSdk == master && !isView
      ensures Configured() && forall c <- customList :: c.handle in customCfgMap
      ensures ok ==> LastOfType(lidars, typeCfgs) && logEnable == log
    {
      isView, customCfgs, masterSdk, logEnable := false, customList, master, log;
      if lidars != [] {
        detectionHostIp := lidars[0].host.hostIp;
      } else if customList != [] {
        detectionHostIp := customList[0].host.hostIp;
      } else {
        return false;
      }
      for i := 0 to |lidars|
        invariant LastOfType(lidars[..i], typeCfgs)
        modifies this`typeCfgs
      {
        LastOfTypeStep(lidars, i, typeCfgs);
        typeCfgs := typeCfgs[lidars[i].deviceType := lidars[i]];
      }
      assert lidars[..|lidars|] == lidars;
      for i := 0 to |customList|
        invariant Configured() && forall j :: 0 <= j < i ==> customList[j].handle in customCfgMap
        modifies this`customCfgMap
      {
        customCfgMap := customCfgMap[customList[i].handle := customList[i]];
      }
      return true;
    }

    /** `Init` with configured devices; `ready` is whether the other managers and the threads could be started. It
        succeeds unless the creation of a socket fails, and then every configured device has its channels. */
    method Init(lidars: seq<LidarCfg>, customList: seq<LidarCfg>, master: bool, log: bool, ready: bool)
      returns (ok: bool)
      requires Idle()
      modifies this
      ensures Inv() && leaked == old(leaked) && closings == old(closings)
      ensures ok == (ready && (lidars != [] || customList != []) && failures == old(failures))
      ensures customCfgs == customList && masterSdk == master && !isView
      ensures ok ==> LastOfType(lidars, typeCfgs) && logEnable == log
      ensures ok ==> detectionSocket > 0 && detectionBroadcastSocket > 0 && AllLinked()
                     && |vecBroadcastSocket| == Mid360Count(customList)
                     && forall c <- customList :: c.handle in customCfgMap
    {
      hide Conserved, NoneDangling, ViewsKnown, AllLinked, Configured, Agree, LastOfType;
      ok := Configure(lidars, customList, master, log);
      if !ok || !ready {
        return false;
      }
      ok := StartChannels();
    }

    /** The detection channel and those of all devices. */
    method StartChannels() returns (ok: bool)
      requires Inv() && detectionSocket <= 0 && detectionBroadcastSocket <= 0 && customCommandChannel == map[]
      requires vecBroadcastSocket == []
      modifies this`open, this`failures, this`leaked, this`detectionBroadcastSocket, this`detectionSocket,
               this`socketVec, this`vecBroadcastSocket, this`channelInfo, this`customCommandChannel,
               this`commandChannel, this`dataChannel
      ensures Inv() && leaked == old(leaked) && Tried(ok, old(failures))
      ensures ok ==> detectionSocket > 0 && detectionBroadcastSocket > 0 && AllLinked()
                     && |vecBroadcastSocket| == Mid360Count(customCfgs)
    {
      hide Inv, AllLinked;
      ok := StartDetection();
      if ok {
        ok := CreateChannels();
      }
    }

    /** A device that answered the search (`OnData`): it takes the configuration of its type, and the channels of
        all devices are created where they are missing. */
    method OnDiscovery(handle: nat, devType: nat)
      requires Inv()
      modifies this
      ensures Inv() && leaked == old(leaked) && closings == old(closings)
      ensures old(isView || handle in customCfgMap || devType !in typeCfgs) ==>
                customCfgs == old(customCfgs) && open == old(open) && channelInfo == old(channelInfo)
      ensures !old(isView || handle in customCfgMap || devType !in typeCfgs) ==>
                var cfg := old(typeCfgs[devType]).(handle := handle);
                && customCfgs == old(customCfgs) + [cfg] && customCfgMap == old(customCfgMap)[handle := cfg]
                && typeCfgs == old(typeCfgs)[devType := cfg]
                && (failures == old(failures) ==>
                      && AllLinked()
                      && |vecBroadcastSocket| == |old(vecBroadcastSocket)| + Mid360Count(customCfgs))
    {
      hide Conserved, NoneDangling, ViewsKnown, Agrees, AllLinked;
      if isView || handle in customCfgMap || devType !in typeCfgs {
        return;
      }
      var cfg := typeCfgs[devType].(handle := handle);
      typeCfgs := typeCfgs[devType := cfg];
      customCfgMap := customCfgMap[handle := cfg];
      customCfgs := customCfgs + [cfg];
      var ok := CreateChannels();
    }

    // -------------------------------------------------------------------------------------------
    // View mode
    // -------------------------------------------------------------------------------------------

    /** `HandleDetectionData`. A device whose addresses were asked for always has them: the request is never
        `MissingInfo`. */
    method HandleDetectionData(handle: nat, devType: nat, cmdPort: nat, isGetLoaderMode: bool, isLoadMode: bool)
      returns (request: Request)
      requires Inv()
      modifies this`viewDevices, this`viewLidarsInfo, this`lidarsDevType
      ensures Inv() && !request.MissingInfo?
      ensures viewDevices == if !isView || handle == 0 || handle in old(viewDevices) then old(viewDevices)
                             else old(viewDevices)[handle := ViewDevice(devType, cmdPort, false, false)]
      ensures viewLidarsInfo == old(viewLidarsInfo)
      ensures var asked := isView && handle != 0 && isGetLoaderMode && !isLoadMode;
              && (request.QueryInternalInfo? <==> asked && !viewDevices[handle].isGet)
              && (request.UpdateLidarCfg? <==> asked && viewDevices[handle].isGet && !viewDevices[handle].isSet)
      ensures request.UpdateLidarCfg? ==> handle in viewLidarsInfo && viewLidarsInfo[handle] == Some(request.info)
      ensures request.InfoChange? <==> isGetLoaderMode && isLoadMode && handle != 0
                                       && (isView || handle !in old(lidarsDevType)
                                           || old(lidarsDevType)[handle] == devType)
      ensures handle != 0 && !isView ==> lidarsDevType == if handle in old(lidarsDevType) then old(lidarsDevType)
                                                          else old(lidarsDevType)[handle := devType]
    {
      hide Conserved, NoneDangling, Agrees, Configured;
      request := Nothing;
      if handle == 0 {
        return;
      }
      if isView {
        request := HandleViewDevice(handle, devType, cmdPort, isGetLoaderMode, isLoadMode);
        return;
      }
      if handle in lidarsDevType {
        if lidarsDevType[handle] != devType {
          return;
        }
      } else {
        lidarsDevType := lidarsDevType[handle := devType];
      }
      if isGetLoaderMode && isLoadMode {
        request := InfoChange;
      }
    }

    /** The part for view mode. */
    method HandleViewDevice(handle: nat, devType: nat, cmdPort: nat, isGetLoaderMode: bool, isLoadMode: bool)
      returns (request: Request)
      requires Inv()
      modifies this`viewDevices, this`viewLidarsInfo
      ensures Inv() && !request.MissingInfo?
      ensures viewDevices == if handle in old(viewDevices) then old(viewDevices)
                             else old(viewDevices)[handle := ViewDevice(devType, cmdPort, false, false)]
      ensures viewLidarsInfo == old(viewLidarsInfo)
      ensures request.InfoChange? <==> isGetLoaderMode && isLoadMode
      ensures request.QueryInternalInfo? <==> isGetLoaderMode && !isLoadMode && !viewDevices[handle].isGet
      ensures request.UpdateLidarCfg?
              <==> isGetLoaderMode && !isLoadMode && viewDevices[handle].isGet && !viewDevices[handle].isSet
      ensures request.UpdateLidarCfg? ==> handle in viewLidarsInfo && viewLidarsInfo[handle] == Some(request.info)
    {
      hide Conserved, NoneDangling, Agrees, Configured;
      request := Nothing;
      if handle !in viewDevices {
        viewDevices := viewDevices[handle := ViewDevice(devType, cmdPort, false, false)];
      }
      var device := viewDevices[handle];
      if !device.isGet && isGetLoaderMode && !isLoadMode {
        request := QueryInternalInfo;
      } else if isGetLoaderMode && !isLoadMode {
        if !device.isSet {
          // looking a handle up enters it
          viewLidarsInfo := if handle in viewLidarsInfo then viewLidarsInfo else viewLidarsInfo[handle := None];
          var info := viewLidarsInfo[handle];
          request := if info.None? then MissingInfo else UpdateLidarCfg(info.value);
        }
      }
      if isGetLoaderMode && isLoadMode {
        request := InfoChange;
      }
    }

    /** The ports a device uses: those it reports, or the fixed ones of its type. */
    function LidarPorts(devType: nat, reported: Ports): (p: Ports)
      ensures p.hostPoint == reported.hostPoint && p.hostImu == reported.hostImu
      ensures if devType in {9, 35, 40, 41} then p.lidarPoint == 56300 && p.lidarImu == 56400
              else p.lidarPoint == reported.lidarPoint && p.lidarImu == reported.lidarImu
    {
      if IsMid360Like(devType) then reported.(lidarPoint := LIDAR_POINT_CLOUD_PORT, lidarImu := LIDAR_IMU_DATA_PORT)
      else reported
    }

    /** The walk of `AddViewLidar` over the parameters of the response. */
    method ReadPorts(params: seq<KeyValue>) returns (ports: Ports)
      requires PortsPresent(params)
      ensures ports == Reported(params)
    {
      hide Reported, Short;
      ports := Ports(0, 0, 0, 0);
      NoParameters();
      assert params[..0] == [];
      for i := 0 to |params|
        invariant PortsPresent(params[..i]) && ports == Reported(params[..i])
      {
        NextParameter(params, i);
        var kv := params[i];
        if kv.key == KEY_POINT_DATA_HOST {
          ports := ports.(hostPoint := Short(kv.value, 4), lidarPoint := Short(kv.value, 6));
        } else if kv.key == KEY_IMU_HOST {
          ports := ports.(hostImu := Short(kv.value, 4), lidarImu := Short(kv.value, 6));
        }
      }
      assert params[..|params|] == params;
    }

    /** `AddViewLidar` for a response with these parameters. */
    method AddViewLidar(handle: nat, retCode: nat, params: seq<KeyValue>) returns (request: Request)
      requires Inv() && PortsPresent(params)
      modifies this`open, this`failures, this`socketVec, this`channelInfo, this`viewDevices, this`viewLidarsInfo
      ensures Inv()
      ensures if retCode != 0 || handle !in old(viewDevices) || old(viewDevices)[handle].isGet
              then request == Nothing && viewLidarsInfo == old(viewLidarsInfo) && open == old(open)
              else
                var device := old(viewDevices)[handle];
                && request == UpdateLidarCfg(ViewLidarIpInfo(device.devType, device.cmdPort, detectionHostIp,
                                                             LidarPorts(device.devType, Reported(params))))
                && viewLidarsInfo == old(viewLidarsInfo)[handle := Some(request.info)]
                && viewDevices == old(viewDevices)[handle := device.(isGet := true)]
                && (failures == old(failures) ==>
                      && ChannelKey(detectionHostIp, request.info.ports.hostPoint, "") in channelInfo
                      && ChannelKey(detectionHostIp, request.info.ports.hostImu, "") in channelInfo)
    {
      hide Conserved, NoneDangling, Agrees, Configured, Reported, LidarPorts, PortsPresent;
      if retCode != 0 || handle !in viewDevices || viewDevices[handle].isGet {
        return Nothing;
      }
      var device := viewDevices[handle];
      var reported := ReadPorts(params);
      var ports := LidarPorts(device.devType, reported);
      var info := ViewLidarIpInfo(device.devType, device.cmdPort, detectionHostIp, ports);
      CreateViewDataChannel(info);
      viewLidarsInfo := viewLidarsInfo[handle := Some(info)];
      viewDevices := viewDevices[handle := device.(isGet := true)];
      return UpdateLidarCfg(info);
    }

    method CreateViewDataChannel(info: ViewLidarIpInfo)
      requires Inv()
      modifies this`open, this`failures, this`socketVec, this`channelInfo
      ensures Inv() && old(channelInfo.Keys) <= channelInfo.Keys
      ensures failures == old(failures) ==>
                && ChannelKey(info.hostIp, info.ports.hostPoint, "") in channelInfo
                && ChannelKey(info.hostIp, info.ports.hostImu, "") in channelInfo
    {
      hide Inv;
      var point := CreateViewSocket(info.hostIp, info.ports.hostPoint);
      if point {
        var imu := CreateViewSocket(info.hostIp, info.ports.hostImu);
      }
    }

    method CreateViewSocket(host: string, port: nat) returns (ok: bool)
      requires Inv()
      modifies this`open, this`failures, this`socketVec, this`channelInfo
      ensures Inv() && old(channelInfo.Keys) <= channelInfo.Keys && Tried(ok, old(failures))
      ensures ok ==> ChannelKey(host, port, "") in channelInfo
    {
      hide Conserved, ViewsKnown, Configured, Agree, AllOpen;
      var key := ChannelKey(host, port, "");
      if key !in channelInfo {
        var sock := CreateOwnedSocket();
        if sock < 0 {
          return false;
        }
        EnterOpen(old(open), channelInfo, commandChannel, dataChannel, key, sock);
        EnterAgree(customCommandChannel, channelInfo, key, sock);
        channelInfo := channelInfo[key := sock];
      }
      return true;
    }

    method UpdateViewLidarCfgCallback(handle: nat)
      requires Inv()
      modifies this`viewDevices
      ensures Inv()
      ensures viewDevices == if isView && handle in old(viewDevices)
                             then old(viewDevices)[handle := old(viewDevices)[handle].(isSet := true)]
                             else old(viewDevices)
    {
      hide Conserved, NoneDangling, Agrees, Configured;
      if isView && handle in viewDevices {
        viewDevices := viewDevices[handle := viewDevices[handle].(isSet := true)];
      }
    }

    /** `GetCmdChannel`: an open socket, never a multicast subscription. */
    method GetCmdChannel(handle: nat) returns (found: bool, sock: int)
      requires Inv()
      ensures found ==> sock in open && sock > 0
      ensures found ==> handle in customCfgMap
                        && var host := customCfgMap[handle].host; var key := ChannelKey(host.hostIp, host.cmdPort, "");
                           key in customCommandChannel && sock == customCommandChannel[key] == channelInfo[key]
      ensures !found && handle in customCfgMap && masterSdk && AllLinked() ==>
                customCfgMap[handle].host.hostIp == "" || customCfgMap[handle].host.cmdPort == LOG_PORT
    {
      hide Conserved, ViewsKnown;
      if handle in customCfgMap {
        var host := customCfgMap[handle].host;
        var key := ChannelKey(host.hostIp, host.cmdPort, "");
        if key in customCommandChannel {
          return true, customCommandChannel[key];
        }
      }
      return false, -1;
    }

    // -------------------------------------------------------------------------------------------
    // Teardown
    // -------------------------------------------------------------------------------------------

    /** The sockets in a list are closed, first to last. */
    method CloseAll(socks: seq<int>)
      requires Members(socks) <= open && NoDuplicates(socks)
      modifies this`open, this`closings
      ensures open == old(open) - Members(socks) && closings == old(closings) + socks
    {
      for i := 0 to |socks|
        invariant open == old(open) - Members(socks[..i]) && closings == old(closings) + socks[..i]
      {
        assert socks[i] in Members(socks) && socks[i] !in socks[..i];
        CloseSock(socks[i]);
      }
      assert socks[..|socks|] == socks;
    }

    method CloseHeld(sock: int) returns (now: int)
      requires sock > 0 ==> sock in open
      modifies this`open, this`closings
      ensures open == old(open) - Members(Listed(sock)) && closings == old(closings) + Listed(sock)
      ensures now == if sock > 0 then -1 else sock
    {
      now := sock;
      if sock > 0 {
        CloseSock(sock);
        now := -1;
      }
    }

    /** `Destory` closes every socket that has an owner exactly once, and a repeat closes none; only leaked
        sockets stay open. */
    method Destory()
      requires Inv()
      modifies this
      ensures Idle() && leaked == old(leaked) && multiset(open) == leaked
      ensures closings == old(closings + socketVec + vecBroadcastSocket
                              + Listed(detectionSocket) + Listed(detectionBroadcastSocket))
    {
      hide Conserved, Members;
      CloseOwned();
      ForgetChannels();
      ForgetDevices();
    }

    method CloseOwned()
      requires Conserved()
      modifies this`open, this`closings, this`socketVec, this`vecBroadcastSocket, this`detectionSocket,
               this`detectionBroadcastSocket
      ensures Conserved() && multiset(open) == leaked && open <= old(open)
      ensures socketVec == [] && vecBroadcastSocket == [] && detectionSocket <= 0 && detectionBroadcastSocket <= 0
      ensures closings == old(closings + socketVec + vecBroadcastSocket
                              + Listed(detectionSocket) + Listed(detectionBroadcastSocket))
    {
      hide OwnedOnce, Members, NoDuplicates;
      OwnedList(open, socketVec, vecBroadcastSocket, detectionSocket, detectionBroadcastSocket, leaked);
      CloseAll(socketVec);
      socketVec := [];
      CloseAll(vecBroadcastSocket);
      vecBroadcastSocket := [];
      OwnedFields(open, detectionSocket, detectionBroadcastSocket, leaked);
      detectionSocket := CloseHeld(detectionSocket);
      detectionBroadcastSocket := CloseHeld(detectionBroadcastSocket);
      NothingOwned(open, detectionSocket, detectionBroadcastSocket, leaked);
    }

    method ForgetChannels()
      modifies this`channelInfo, this`customCommandChannel, this`commandChannel, this`dataChannel
      ensures channelInfo == map[] && customCommandChannel == map[] && commandChannel == {} && dataChannel == {}
    {
      channelInfo := map[];
      customCommandChannel := map[];
      commandChannel := {};
      dataChannel := {};
    }

    method ForgetDevices()
      modifies this`typeCfgs, this`customCfgMap, this`customCfgs, this`lidarsDevType, this`viewDevices,
               this`viewLidarsInfo, this`isView, this`detectionHostIp
      ensures viewDevices == map[] && viewLidarsInfo == map[] && customCfgs == [] && customCfgMap == map[]
      ensures typeCfgs == map[] && lidarsDevType == map[] && !isView && detectionHostIp == ""
    {
      customCfgs := [];
      typeCfgs := map[];
      customCfgMap := map[];
      lidarsDevType := map[];
      viewDevices := map[];
      viewLidarsInfo := map[];
      isView := false;
      detectionHostIp := "";
    }
  }

  // ---------------------------------------------------------------------------------------------
  // Runs
  // ---------------------------------------------------------------------------------------------

  /** What can happen to the manager, in any order and with any arguments. */
  datatype Step =
    | SdkInitView(hostIp: string, ready: bool)
    | SdkInit(lidars: seq<LidarCfg>, customList: seq<LidarCfg>, master: bool, log: bool, ready: bool)
    | Discovered(handle: nat, devType: nat)
    | Detected(handle: nat, devType: nat, cmdPort: nat, isGetLoaderMode: bool, isLoadMode: bool)
    | ViewLidarAdded(handle: nat, retCode: nat, params: seq<KeyValue>)
    | ViewLidarUpdated(handle: nat)
    | SdkUninit

  /** Any run of the SDK: initialisation is refused while it is initialised and undone when it fails, as in
      sdk_core/livox_lidar_sdk.cpp. No socket is ever leaked, every socket is closed at most once, and after
      teardown none is open. */
  method RunSdk(m: DeviceManager, steps: seq<Step>) returns (isInitialized: bool)
    requires m.Idle() && m.leaked == multiset{} && m.open == {}
    modifies m
    ensures m.Inv() && m.leaked == multiset{}
    ensures !isInitialized ==> m.Idle() && m.open == {}
  {
    hide DeviceManager.Inv;
    isInitialized := false;
    for i := 0 to |steps|
      invariant m.Inv() && m.leaked == multiset{}
      invariant !isInitialized ==> m.Idle() && m.open == {}
    {
      isInitialized := RunStep(m, steps[i], isInitialized);
    }
  }

  method RunStep(m: DeviceManager, step: Step, wasInitialized: bool) returns (isInitialized: bool)
    requires m.Inv() && m.leaked == multiset{} && (!wasInitialized ==> m.Idle() && m.open == {})
    modifies m
    ensures m.Inv() && m.leaked == multiset{} && (!isInitialized ==> m.Idle() && m.open == {})
  {
    isInitialized := wasInitialized;
    match step
    case SdkInitView(hostIp, ready) =>
      if !isInitialized {
        isInitialized := m.InitView(hostIp, ready);
        if !isInitialized {
          TearDown(m);
        }
      }
    case SdkInit(lidars, customList, master, log, ready) =>
      if !isInitialized {
        isInitialized := m.Init(lidars, customList, master, log, ready);
        if !isInitialized {
          TearDown(m);
        }
      }
    case Discovered(handle, devType) =>
      if isInitialized {
        m.OnDiscovery(handle, devType);
      }
    case Detected(handle, devType, cmdPort, isGetLoaderMode, isLoadMode) =>
      if isInitialized {
        var request := m.HandleDetectionData(handle, devType, cmdPort, isGetLoaderMode, isLoadMode);
      }
    case ViewLidarAdded(handle, retCode, params) =>
      if isInitialized && PortsPresent(params) {
        var request := m.AddViewLidar(handle, retCode, params);
      }
    case ViewLidarUpdated(handle) =>
      if isInitialized {
        m.UpdateViewLidarCfgCallback(handle);
      }
    case SdkUninit =>
      if isInitialized {
        TearDown(m);
        isInitialized := false;
      }
  }

  method TearDown(m: DeviceManager)
    requires m.Inv() && m.leaked == multiset{}
    modifies m
    ensures m.Idle() && m.leaked == multiset{} && m.open == {}
  {
    hide OwnedOnce;
    m.Destory();
    NoneOpen(m.open);
  }

  lemma NoneOpen(open: set<int>)
    requires multiset(open) == multiset{}
    ensures open == {}
  {
    assert forall s :: s in open ==> s in multiset(open);
  }

  // ---------------------------------------------------------------------------------------------
  // Keys as text
  // ---------------------------------------------------------------------------------------------

  /** The text that the maps are keyed by. */
  function KeyText(k: ChannelKey): string {
    k.host + ":" + Decimal(k.port) + if k.multicast == "" then "" else ":" + k.multicast
  }

  predicate NoColon(s: string) {
    forall i :: 0 <= i < |s| ==> s[i] != ':'
  }

  lemma FirstColon(a: string, x: string, b: string, y: string)
    requires NoColon(a) && NoColon(b) && a + ":" + x == b + ":" + y
    ensures a == b && x == y
  {
    var s := a + ":" + x;
    assert s[|a|] == ':' && s[|b|] == ':';
    assert forall i :: 0 <= i < |a| ==> s[i] == a[i];
    assert forall i :: 0 <= i < |b| ==> s[i] == b[i];
    assert |a| == |b|;
    assert a == s[..|a|] && b == s[..|b|] && x == s[|a| + 1..] && y == s[|b| + 1..];
  }

  lemma DecimalHasNoColon(n: nat)
    ensures NoColon(Decimal(n))
  {
    var ds := Decimal(n);
    assert forall i :: 0 <= i < |ds| ==> IsDigit(ds[i]);
  }

  /** Different channels have different texts, as host addresses hold no colon. */
  lemma KeyTextIsInjective(k: ChannelKey, l: ChannelKey)
    requires NoColon(k.host) && NoColon(l.host) && KeyText(k) == KeyText(l)
    ensures k == l
  {
    hide Decimal, NoColon;
    var kp, lp := Decimal(k.port), Decimal(l.port);
    var km := if k.multicast == "" then "" else ":" + k.multicast;
    var lm := if l.multicast == "" then "" else ":" + l.multicast;
    assert KeyText(k) == k.host + ":" + (kp + km) && KeyText(l) == l.host + ":" + (lp + lm);
    FirstColon(k.host, kp + km, l.host, lp + lm);
    DecimalHasNoColon(k.port);
    DecimalHasNoColon(l.port);
    DecimalValue(k.port);
    DecimalValue(l.port);
    if k.multicast != "" && l.multicast != "" {
      assert kp + km == kp + ":" + k.multicast && lp + lm == lp + ":" + l.multicast;
      FirstColon(kp, k.multicast, lp, l.multicast);
    } else if k.multicast != "" {
      assert lp == kp + km && km[0] == ':';
      ColonInside(kp, km, lp);
    } else if l.multicast != "" {
      assert kp == lp + lm && lm[0] == ':';
      ColonInside(lp, lm, kp);
    } else {
      assert kp + km == kp && lp + lm == lp;
    }
  }

  lemma ColonInside(a: string, b: string, s: string)
    requires s == a + b && b != "" && b[0] == ':'
    ensures !NoColon(s)
  {
    assert s[|a|] == ':';
  }
}
