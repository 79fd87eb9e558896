/**
 * The compiled-in configuration of the monitor: device display names, reference
 * screen dimensions and corner radii, the fixed display width and the default
 * target list.
 */
module Config {

  /** Device code to marketing name. */
  const DeviceNames: map<string, string> :=
    map["p65" := "REDMI Watch 6", "o66" := "Xiaomi Band 10", "n67" := "Xiaomi Band 9 Pro"]

  /** Device code to reference screen size (width W, height H) in pixels. */
  const DeviceDimensions: map<string, (int, int)> :=
    map["p65" := (432, 514), "o66" := (212, 520), "n67" := (336, 480)]

  /** Width in pixels at which every preview image is shown in the report. */
  const DisplayWidth: int := 80

  /** Device code to reference corner radius R in pixels. */
  const DeviceCornersRaw: map<string, int> :=
    map["p65" := 102, "o66" := 223, "n67" := 48]

  /** Reference size used for a code missing from DeviceDimensions. */
  const FallbackDimensions: (int, int) := (1, 1)

  /** Reference corner radius used for a code missing from DeviceCornersRaw. */
  const FallbackCornerRaw: int := 4

  /** Radius in pixels shown when the reference width is not positive. */
  const FallbackRadiusPx: int := 4

  /** Target list used when the TARGET_TYPES environment variable is unset. */
  const DefaultTargetTypes: string := "p65,o66,n67"
}
