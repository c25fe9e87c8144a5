/** File types and modes, as every engine sees them. */
module Modes {
  import opened Sizes

  datatype Kind = Dir | Regular | Symlink | CharDevice | BlockDevice | Fifo | Socket

  type Perm = p: nat | p < 512

  type Device = d: nat | d < TWO64

  /** A file mode: its type, the nine permission bits and the setuid, setgid and sticky bits. */
  datatype Mode = Mode(kind: Kind, perm: Perm, special: nat)
}
