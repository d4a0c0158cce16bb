/** Names shared by everything keyed by a socket.io connection. */
module Sockets {
  /** `socket.id`: the connection's identifier, also the name of its own room. */
  type SocketId = string
}
