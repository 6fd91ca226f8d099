/** Threads, and who holds a lock. */
module Threads {
  type Tid = nat

  datatype Owner = Nobody | Thread(t: Tid)
}
