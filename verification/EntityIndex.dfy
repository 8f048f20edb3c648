/** The decimal packing of entPhysicalIndex
    (`physical_entity_sub_oid_generator.py`, lane offsets of `sensor_data.py`), and the
    decoder that shows which parts share an index. */
module EntityIndex {
  import opened Common

  const MODULE_TYPE_MGMT := 200000000
  const MODULE_TYPE_FAN_DRAWER := 500000000
  const MODULE_TYPE_PSU := 600000000
  const MODULE_TYPE_PORT := 1000000000
  const MODULE_INDEX_MULTIPLE := 1000000
  const DEVICE_INDEX_MULTIPLE := 100
  const DEVICE_TYPE_FAN := 20000
  const DEVICE_TYPE_CHASSIS_THERMAL := 990000
  const DEVICE_TYPE_POWER_MONITOR := 240000
  const PORT_IFINDEX_MULTIPLE := 100
  const SENSOR_TYPE_TEMP := 10
  const SENSOR_TYPE_FAN := 20
  const SENSOR_TYPE_POWER := 30
  const SENSOR_TYPE_CURRENT := 40
  const SENSOR_TYPE_VOLTAGE := 50
  const SENSOR_TYPE_PORT_TX_POWER := 20
  const SENSOR_TYPE_PORT_RX_POWER := 30
  const SENSOR_TYPE_PORT_TX_BIAS := 40

  const CHASSIS_SUB_ID := 1
  const CHASSIS_MGMT_SUB_ID := MODULE_TYPE_MGMT

  // ---------------------------------------------------------------- generators

  datatype PsuSensor = PsuTemperature | PsuPower | PsuCurrent | PsuVoltage

  function PsuSensorPart(s: PsuSensor): nat {
    match s
    case PsuTemperature => SENSOR_TYPE_TEMP
    case PsuPower => SENSOR_TYPE_POWER
    case PsuCurrent => SENSOR_TYPE_CURRENT
    case PsuVoltage => SENSOR_TYPE_VOLTAGE
  }

  /** The sensors of a transceiver; power and bias sensors have a lane. */
  datatype XcvrSensor = Temperature | Voltage | RxPower(lane: nat) | TxPower(lane: nat) | TxBias(lane: nat)

  /** `TransceiverSensorData.get_oid_offset`. */
  function OidOffset(s: XcvrSensor): nat {
    match s
    case Temperature => SENSOR_TYPE_TEMP
    case Voltage => SENSOR_TYPE_VOLTAGE
    case RxPower(lane) => SENSOR_TYPE_PORT_RX_POWER + lane
    case TxPower(lane) => SENSOR_TYPE_PORT_TX_POWER + lane
    case TxBias(lane) => SENSOR_TYPE_PORT_TX_BIAS + lane
  }

  function ChassisThermalId(position: nat): nat {
    CHASSIS_MGMT_SUB_ID + DEVICE_TYPE_CHASSIS_THERMAL + position * DEVICE_INDEX_MULTIPLE + SENSOR_TYPE_TEMP
  }

  function FanDrawerId(position: nat): nat {
    MODULE_TYPE_FAN_DRAWER + position * MODULE_INDEX_MULTIPLE
  }

  /** A fan of the chassis gets the index it would have in the drawer of its own position. */
  function FanId(parent: nat, position: nat): nat {
    (if parent == CHASSIS_SUB_ID then FanDrawerId(position) else parent) + DEVICE_TYPE_FAN +
      position * DEVICE_INDEX_MULTIPLE
  }

  function TachometerId(fan: nat): nat {
    fan + SENSOR_TYPE_FAN
  }

  function PsuId(position: nat): nat {
    MODULE_TYPE_PSU + position * MODULE_INDEX_MULTIPLE
  }

  function PsuSensorId(psu: nat, s: PsuSensor): nat {
    psu + DEVICE_TYPE_POWER_MONITOR + PsuSensorPart(s)
  }

  function TransceiverId(ifindex: nat): nat {
    MODULE_TYPE_PORT + ifindex * PORT_IFINDEX_MULTIPLE
  }

  function TransceiverSensorId(ifindex: nat, offset: nat): nat {
    TransceiverId(ifindex) + offset
  }

  // ---------------------------------------------------------------- parts

  /** The parts of a device that get an index. */
  datatype Part =
    | Chassis
    | Mgmt
    | ChassisThermal(position: nat)
    | FanDrawer(position: nat)
    | ChassisFan(position: nat)
    | DrawerFan(drawer: nat, position: nat)
    | PsuFan(psu: nat, position: nat)
    | Tachometer(fan: Part)
    | Psu(position: nat)
    | PsuMonitor(psu: nat, sensor: PsuSensor)
    | Transceiver(ifindex: nat)
    | TransceiverMonitor(ifindex: nat, xsensor: XcvrSensor)

  function Id(p: Part): nat {
    match p
    case Chassis => CHASSIS_SUB_ID
    case Mgmt => CHASSIS_MGMT_SUB_ID
    case ChassisThermal(n) => ChassisThermalId(n)
    case FanDrawer(n) => FanDrawerId(n)
    case ChassisFan(n) => FanId(CHASSIS_SUB_ID, n)
    case DrawerFan(d, n) => FanId(FanDrawerId(d), n)
    case PsuFan(u, n) => FanId(PsuId(u), n)
    case Tachometer(fan) => TachometerId(Id(fan))
    case Psu(n) => PsuId(n)
    case PsuMonitor(u, s) => PsuSensorId(PsuId(u), s)
    case Transceiver(i) => TransceiverId(i)
    case TransceiverMonitor(i, s) => TransceiverSensorId(i, OidOffset(s))
  }

  predicate IsFan(p: Part) {
    p.ChassisFan? || p.DrawerFan? || p.PsuFan?
  }

  predicate LaneBelow(s: XcvrSensor, n: nat) {
    match s
    case RxPower(lane) => lane < n
    case TxPower(lane) => lane < n
    case TxBias(lane) => lane < n
    case _ => true
  }

  /** Two-digit positions, one-digit lanes, seven-digit interface indexes; only fans have
      tachometers. */
  predicate InBounds(p: Part) {
    match p
    case ChassisThermal(n) => n < 100
    case FanDrawer(n) => n < 100
    case ChassisFan(n) => n < 100
    case DrawerFan(d, n) => d < 100 && n < 100
    case PsuFan(u, n) => u < 100 && n < 100
    case Tachometer(fan) => IsFan(fan) && InBounds(fan)
    case Psu(n) => n < 100
    case PsuMonitor(u, _) => u < 100
    case Transceiver(i) => i < 10000000
    case TransceiverMonitor(i, s) => i < 10000000 && LaneBelow(s, 10)
    case _ => true
  }

  /** The part an index stands for; a fan of the chassis stands for the fan of the drawer
      whose index it borrows. */
  function Canonical(p: Part): Part {
    match p
    case ChassisFan(n) => DrawerFan(n, n)
    case Tachometer(ChassisFan(n)) => Tachometer(DrawerFan(n, n))
    case _ => p
  }

  /** The two digits of a transceiver's sensor. */
  function SensorDigits(s: XcvrSensor): nat {
    match s
    case Temperature => 10
    case Voltage => 50
    case TxPower(lane) => 20 + lane
    case RxPower(lane) => 30 + lane
    case TxBias(lane) => 40 + lane
  }

  function MonitorDigits(s: PsuSensor): nat {
    match s
    case PsuTemperature => 10
    case PsuPower => 30
    case PsuCurrent => 40
    case PsuVoltage => 50
  }

  /** The index of a fan in the chassis (index 1), in a drawer or in a PSU. */
  function FanDigits(container: nat, position: nat): nat {
    (if container == 1 then 500000000 + position * 1000000 else container) + 20000 + position * 100
  }

  /** Every index, in digits. */
  lemma IndexDigits(p: Part)
    ensures match p
            case Chassis => Id(p) == 1
            case Mgmt => Id(p) == 200000000
            case ChassisThermal(n) => Id(p) == 200990010 + n * 100
            case FanDrawer(n) => Id(p) == 500000000 + n * 1000000
            case ChassisFan(n) => Id(p) == FanDigits(1, n) == 500020000 + n * 1000100
            case DrawerFan(d, n) => Id(p) == FanDigits(500000000 + d * 1000000, n) == 500020000 + d * 1000000 + n * 100
            case PsuFan(u, n) => Id(p) == FanDigits(600000000 + u * 1000000, n) == 600020000 + u * 1000000 + n * 100
            case Tachometer(fan) => Id(p) == Id(fan) + 20
            case Psu(n) => Id(p) == 600000000 + n * 1000000
            case PsuMonitor(u, s) => Id(p) == 600240000 + u * 1000000 + MonitorDigits(s)
            case Transceiver(i) => Id(p) == 1000000000 + i * 100
            case TransceiverMonitor(i, s) => Id(p) == 1000000000 + i * 100 + SensorDigits(s)
  {
  }

  // ---------------------------------------------------------------- decoder

  function DecodeXcvr(low: nat): Option<XcvrSensor> {
    if low == 10 then Some(Temperature)
    else if low == 50 then Some(Voltage)
    else if 20 <= low < 30 then Some(TxPower(low - 20))
    else if 30 <= low < 40 then Some(RxPower(low - 30))
    else if 40 <= low < 50 then Some(TxBias(low - 40))
    else None
  }

  function DecodePsuSensor(low: nat): Option<PsuSensor> {
    match low
    case 10 => Some(PsuTemperature)
    case 30 => Some(PsuPower)
    case 40 => Some(PsuCurrent)
    case 50 => Some(PsuVoltage)
    case _ => None
  }

  function DecodeFan(fan: Part, low: nat): Option<Part> {
    if low == 0 then Some(fan) else if low == SENSOR_TYPE_FAN then Some(Tachometer(fan)) else None
  }

  function DecodeGroups(module_: nat, index: nat, device: nat, item: nat, low: nat): Option<Part> {
    if module_ == 2 && index == 0 && device == 0 && item == 0 && low == 0 then Some(Mgmt)
    else if module_ == 2 && index == 0 && device == 99 && low == SENSOR_TYPE_TEMP then Some(ChassisThermal(item))
    else if module_ == 5 && device == 0 && item == 0 && low == 0 then Some(FanDrawer(index))
    else if module_ == 5 && device == 2 then DecodeFan(DrawerFan(index, item), low)
    else if module_ == 6 && device == 0 && item == 0 && low == 0 then Some(Psu(index))
    else if module_ == 6 && device == 2 then DecodeFan(PsuFan(index, item), low)
    else if module_ == 6 && device == 24 && item == 0 then
      var s :- DecodePsuSensor(low);
      Some(PsuMonitor(index, s))
    else None
  }

  function DecodePort(ifindex: nat, low: nat): Option<Part> {
    if low == 0 then Some(Transceiver(ifindex))
    else
      var s :- DecodeXcvr(low);
      Some(TransceiverMonitor(ifindex, s))
  }

  /** Reads an index digit group by digit group: module type, module index, device type,
      device index, sensor; or, for a port, interface index and sensor. */
  function DecodeId(id: nat): Option<Part> {
    if id == CHASSIS_SUB_ID then Some(Chassis)
    else if id >= MODULE_TYPE_PORT then DecodePort((id - MODULE_TYPE_PORT) / 100, id % 100)
    else DecodeGroups(id / 100000000, id / 1000000 % 100, id / 10000 % 100, id / 100 % 100, id % 100)
  }

  lemma GroupsOf(m: nat, index: nat, device: nat, item: nat, low: nat)
    requires 0 < m < 10 && index < 100 && device < 100 && item < 100 && low < 100
    ensures var id := m * 100000000 + index * 1000000 + device * 10000 + item * 100 + low;
      0 < id < MODULE_TYPE_PORT && DecodeId(id) == DecodeGroups(m, index, device, item, low)
  {
    hide DecodeGroups;
    var id := m * 100000000 + index * 1000000 + device * 10000 + item * 100 + low;
    assert id / 100 == m * 1000000 + index * 10000 + device * 100 + item;
    assert id / 10000 == m * 10000 + index * 100 + device;
    assert id / 1000000 == m * 100 + index;
  }

  lemma PortOf(ifindex: nat, low: nat)
    requires ifindex < 10000000 && low < 100
    ensures var id := MODULE_TYPE_PORT + ifindex * 100 + low;
      0 < id < 0x8000_0000 && DecodeId(id) == DecodePort(ifindex, low)
  {
    hide DecodePort;
  }

  lemma DecodeIdOfFan(p: Part, low: nat)
    requires InBounds(p) && IsFan(p) && low < 100
    ensures 0 < Id(p) + low < 0x8000_0000
    ensures DecodeId(Id(p) + low) == DecodeFan(Canonical(p), low)
  {
    hide DecodeId, DecodeFan;
    match p
    case ChassisFan(n) => GroupsOf(5, n, 2, n, low);
    case DrawerFan(d, n) => GroupsOf(5, d, 2, n, low);
    case PsuFan(u, n) => GroupsOf(6, u, 2, n, low);
  }

  lemma DecodeChassis()
    ensures DecodeId(CHASSIS_SUB_ID) == Some(Chassis)
  {
  }

  /** Every generated index is a positive 32-bit signed integer and decodes to its part. */
  lemma DecodeIdOfPart(p: Part)
    requires InBounds(p)
    ensures 0 < Id(p) < 0x8000_0000
    ensures DecodeId(Id(p)) == Some(Canonical(p))
  {
    DecodeChassis();
    hide DecodeId;
    match p
    case Chassis =>
    case Mgmt => GroupsOf(2, 0, 0, 0, 0);
    case ChassisThermal(n) => GroupsOf(2, 0, 99, n, SENSOR_TYPE_TEMP);
    case FanDrawer(n) => GroupsOf(5, n, 0, 0, 0);
    case Psu(n) => GroupsOf(6, n, 0, 0, 0);
    case PsuMonitor(u, s) => GroupsOf(6, u, 24, 0, PsuSensorPart(s));
    case Transceiver(i) => PortOf(i, 0);
    case TransceiverMonitor(i, s) => PortOf(i, OidOffset(s));
    case Tachometer(fan) => DecodeIdOfFan(fan, SENSOR_TYPE_FAN);
    case _ => DecodeIdOfFan(p, 0);
  }

  /** Two parts share an index exactly when they are the same, or are a fan of the chassis
      and the equally numbered fan of the drawer of that number (or their tachometers). */
  lemma SharedIndex(p: Part, q: Part)
    requires InBounds(p) && InBounds(q)
    ensures Id(p) == Id(q) <==> Canonical(p) == Canonical(q)
  {
    DecodeIdOfPart(p);
    DecodeIdOfPart(q);
    if Canonical(p) == Canonical(q) { CanonicalKeepsId(p); CanonicalKeepsId(q); }
  }

  lemma CanonicalKeepsId(p: Part)
    ensures Id(Canonical(p)) == Id(p)
  {
    if p.Tachometer? && p.fan.ChassisFan? { assert Id(p.fan) == Id(DrawerFan(p.fan.position, p.fan.position)); }
  }

  /** Lanes from 10 on run into the next sensor type: transmit power of lane 10 + n and
      receive power of lane n share an index on every port. */
  lemma WideLanesCollide(ifindex: nat, n: nat)
    ensures Id(TransceiverMonitor(ifindex, TxPower(10 + n))) == Id(TransceiverMonitor(ifindex, RxPower(n)))
    ensures Id(TransceiverMonitor(ifindex, RxPower(10 + n))) == Id(TransceiverMonitor(ifindex, TxBias(n)))
  {
  }

  /** On one port, a one-digit lane is the exact bound: all sensors with lanes below `n` have
      distinct indexes if and only if `n` is at most 10. */
  lemma LaneBound(n: nat)
    ensures (forall s, s' :: LaneBelow(s, n) && LaneBelow(s', n) && OidOffset(s) == OidOffset(s') ==> s == s') <==>
            n <= 10
  {
    if n > 10 {
      assert LaneBelow(TxPower(10), n) && LaneBelow(RxPower(0), n);
      assert OidOffset(TxPower(10)) == OidOffset(RxPower(0));
    }
  }
}
