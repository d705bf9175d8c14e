/** The bits of fd_flags. */
module FdFlags {

  const EXCL: bv32 := 0x8000_0000
  const DEV: bv32 := 0x4000_0000
  const FLAGS_MASK: bv32 := 0xC000_0000  // EXCL | DEV

  // O_APPEND | O_NONBLOCK, as newlib defines them.
  const FCNTL_MASK: bv32 := 0x0000_4008

  /** The flags that a caller of open may choose. */
  function UserFlags(flags: bv32): bv32 { flags & !FLAGS_MASK }

  predicate IsExcl(flags: bv32) { flags & EXCL != 0 }
  predicate IsDev(flags: bv32) { flags & DEV != 0 }

  function WithDev(flags: bv32): bv32 { flags | DEV }
  function Locked(flags: bv32): bv32 { flags | EXCL }
  function Unlocked(flags: bv32): bv32 { flags & !EXCL }

  /** F_SETFL: the new value of the flags that fcntl may set, the old value of the others. */
  function WithSettable(flags: bv32, arg: bv32): bv32 { (flags & !FCNTL_MASK) | (arg & FCNTL_MASK) }

  lemma NoFlags()
    ensures !IsExcl(0) && !IsDev(0)
  {
  }

  lemma UserFlagsClear(flags: bv32)
    ensures !IsExcl(UserFlags(flags)) && !IsDev(UserFlags(flags))
  {
  }

  lemma SetDev(flags: bv32)
    ensures IsDev(WithDev(flags)) && IsExcl(WithDev(flags)) == IsExcl(flags)
  {
  }

  lemma SetExcl(flags: bv32)
    ensures IsExcl(Locked(flags)) && IsDev(Locked(flags)) == IsDev(flags)
  {
  }

  lemma ClearExcl(flags: bv32)
    ensures !IsExcl(Unlocked(flags)) && IsDev(Unlocked(flags)) == IsDev(flags)
  {
  }

  lemma SettableKeepsLock(flags: bv32, arg: bv32)
    ensures IsExcl(WithSettable(flags, arg)) == IsExcl(flags) && IsDev(WithSettable(flags, arg)) == IsDev(flags)
  {
  }

  lemma UnlockedLocked(flags: bv32)
    requires !IsExcl(flags)
    ensures Unlocked(Locked(flags)) == flags
  {
  }

  /** What F_GETFL shows after F_SETFL: the argument's settable flags, and the caller's other flags as before. */
  lemma SettableShown(flags: bv32, arg: bv32)
    ensures UserFlags(WithSettable(flags, arg)) & FCNTL_MASK == arg & FCNTL_MASK
    ensures UserFlags(WithSettable(flags, arg)) & !FCNTL_MASK == UserFlags(flags) & !FCNTL_MASK
  {
  }

  lemma LockedKeepsUserFlags(flags: bv32)
    ensures UserFlags(Locked(flags)) == UserFlags(flags)
  {
  }

  lemma UnlockedKeepsUserFlags(flags: bv32)
    ensures UserFlags(Unlocked(flags)) == UserFlags(flags)
  {
  }
}
