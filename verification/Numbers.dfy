/** The integers a double holds exactly. */
module Numbers {
  const MAX_SAFE_INTEGER := 9007199254740991
}
