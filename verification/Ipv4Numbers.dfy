module Ipv4Numbers {
  type Ipv4 = n: nat | n < 0x1_0000_0000
}
