/** Device records as the collector reads them, and the configuration comparison that decides
    whether a running task has to be rebuilt. */
module Devices {
  import opened Basics

  const DEFAULT_COLLECT_INTERVAL_MS := 5000
  const DEFAULT_STORAGE_INTERVAL_S := 300

  datatype Device = Device(
    id: int,
    name: string,
    description: string,
    productKey: string,
    deviceKey: string,
    driverType: string,
    serialPort: string,
    baudRate: int,
    dataBits: int,
    stopBits: int,
    parity: string,
    ipAddress: string,
    portNum: int,
    deviceAddress: string,
    collectInterval: int,
    storageInterval: int,
    timeout: int,
    driverId: Option<int>,
    resourceId: Option<int>,
    resourceName: string,
    updatedAt: int,
    enabled: int
  )

  /** Milliseconds; a non-positive setting falls back to the default. */
  function CollectInterval(milliseconds: int): (r: int)
    ensures r > 0
  {
    if milliseconds <= 0 then DEFAULT_COLLECT_INTERVAL_MS else milliseconds
  }

  /** Milliseconds, from a setting in seconds. */
  function StorageInterval(seconds: int): (r: int)
    ensures r > 0
  {
    (if seconds <= 0 then DEFAULT_STORAGE_INTERVAL_S else seconds) * 1000
  }

  /** `sameTaskDeviceConfig`: names of linked resources and timestamps are not compared. */
  predicate SameConfig(a: Device, b: Device) {
    && a.name == b.name
    && a.description == b.description
    && a.productKey == b.productKey
    && a.deviceKey == b.deviceKey
    && a.driverType == b.driverType
    && a.serialPort == b.serialPort
    && a.baudRate == b.baudRate
    && a.dataBits == b.dataBits
    && a.stopBits == b.stopBits
    && a.parity == b.parity
    && a.ipAddress == b.ipAddress
    && a.portNum == b.portNum
    && a.deviceAddress == b.deviceAddress
    && a.collectInterval == b.collectInterval
    && a.storageInterval == b.storageInterval
    && a.timeout == b.timeout
    && a.driverId == b.driverId
    && a.resourceId == b.resourceId
    && a.enabled == b.enabled
  }
}
