/** The device record shared by the saved lists and the automatic selection. */
module Devices {
  datatype Device = Device(id: string, name: string)
}
