/** The files embedded in the binary (static/files.go). */
module Static {
  /** The names of the iPXE loaders. */
  const BUNDLE: set<string> := {"ipxe.efi", "undionly.kpxe", "ipxe_arm64.efi"}
}
