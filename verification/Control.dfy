/** Control characters of both protocols (CTRL_CHAR, include/tsisp003/TsiSp003Const.h) and the sizes that follow
    from the largest application packet. */
module Control {
  const SOH: bv8 := 0x01
  const STX: bv8 := 0x02
  const ETX: bv8 := 0x03
  const ACK: bv8 := 0x06
  const NAK: bv8 := 0x15

  const MAX_APP_PACKET_SIZE := 4 + (1 + 2 + 7 + 65) * 1000
  const DATA_PACKET_HEADER_SIZE := 8
  const DATA_PACKET_EOB_SIZE := 5
  const MAX_DATA_PACKET_SIZE := DATA_PACKET_HEADER_SIZE + MAX_APP_PACKET_SIZE * 2 + DATA_PACKET_EOB_SIZE
  const POWEROF2_MAX_DATA_PACKET_SIZE := 2 * 65536
  const NON_DATA_PACKET_SIZE := 10
  const MAX_ACK_DATA_PACKET_SIZE := NON_DATA_PACKET_SIZE + MAX_DATA_PACKET_SIZE
}
