/** The tag numbers of the EXIF writer (libcamera/ExynosExif.h). */
module ExifTags {
  import opened Bytes

  const IMAGE_WIDTH: u16 := 0x0100
  const IMAGE_HEIGHT: u16 := 0x0101
  const MAKE: u16 := 0x010F
  const MODEL: u16 := 0x0110
  const ORIENTATION: u16 := 0x0112
  const SOFTWARE: u16 := 0x0131
  const DATE_TIME: u16 := 0x0132
  const YCBCR_POSITIONING: u16 := 0x0213
  const EXIF_IFD_POINTER: u16 := 0x8769
  const GPS_IFD_POINTER: u16 := 0x8825
  const EXPOSURE_TIME: u16 := 0x829A
  const FNUMBER: u16 := 0x829D
  const EXPOSURE_PROGRAM: u16 := 0x8822
  const ISO_SPEED_RATING: u16 := 0x8827
  const EXIF_VERSION: u16 := 0x9000
  const DATE_TIME_ORG: u16 := 0x9003
  const DATE_TIME_DIGITIZE: u16 := 0x9004
  const SHUTTER_SPEED: u16 := 0x9201
  const APERTURE: u16 := 0x9202
  const BRIGHTNESS: u16 := 0x9203
  const EXPOSURE_BIAS: u16 := 0x9204
  const MAX_APERTURE: u16 := 0x9205
  const METERING_MODE: u16 := 0x9207
  const FLASH: u16 := 0x9209
  const FOCAL_LENGTH: u16 := 0x920A
  const USER_COMMENT: u16 := 0x9286
  const COLOR_SPACE: u16 := 0xA001
  const PIXEL_X_DIMENSION: u16 := 0xA002
  const PIXEL_Y_DIMENSION: u16 := 0xA003
  const EXPOSURE_MODE: u16 := 0xA402
  const WHITE_BALANCE: u16 := 0xA403
  const SCENE_CAPTURE_TYPE: u16 := 0xA406
  const GPS_VERSION_ID: u16 := 0x0000
  const GPS_LATITUDE_REF: u16 := 0x0001
  const GPS_LATITUDE: u16 := 0x0002
  const GPS_LONGITUDE_REF: u16 := 0x0003
  const GPS_LONGITUDE: u16 := 0x0004
  const GPS_ALTITUDE_REF: u16 := 0x0005
  const GPS_ALTITUDE: u16 := 0x0006
  const GPS_TIMESTAMP: u16 := 0x0007
  const GPS_PROCESSING_METHOD: u16 := 0x001B
  const GPS_DATESTAMP: u16 := 0x001D
  const COMPRESSION_SCHEME: u16 := 0x0103
  const X_RESOLUTION: u16 := 0x011A
  const Y_RESOLUTION: u16 := 0x011B
  const RESOLUTION_UNIT: u16 := 0x0128
  const JPEG_INTERCHANGE_FORMAT: u16 := 0x0201
  const JPEG_INTERCHANGE_FORMAT_LEN: u16 := 0x0202
}
