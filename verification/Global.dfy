/** The constants of `global/global.go` that several components compare with. */
module Global {
  const MAIN_NET := "zylo0"
}
