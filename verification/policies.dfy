/** When an orderer may skip missing packets (helpertools/PacketOrdererHeap.go:9-21). */
module Policies {
  datatype AllowMissing = AllowNone | AllowInDump | AllowInDumpAndPush
}
