/** What the host tools read and write */
module Octets {
  type Byte = n: nat | n < 256
}
