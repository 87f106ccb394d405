/** The device record persisted in the `devices` table. */
module Devices {

  /** One row of the table. `ipAddress` is its primary key; `port` and
      `lastDiscoveredAt` are a Kotlin `Int` and a `Long` (epoch
      milliseconds), kept unbounded because the model only copies and
      compares them. */
  datatype Device = Device(
    ipAddress: string,
    deviceName: string,
    serviceType: string,
    port: int,
    isOnline: bool,
    lastDiscoveredAt: int)

  /** `a` and `b` agree on every column except `isOnline`. */
  predicate SameRecord(a: Device, b: Device)
  {
    && a.ipAddress == b.ipAddress
    && a.deviceName == b.deviceName
    && a.serviceType == b.serviceType
    && a.port == b.port
    && a.lastDiscoveredAt == b.lastDiscoveredAt
  }
}
