/** Return codes: OPAL codes of the update engine, and the tool's own. */
module Codes {
  const OPAL_SUCCESS := 0
  const OPAL_PARAMETER := -1
  const OPAL_PERMISSION := -8
  const OPAL_NO_MEM := -9
  const OPAL_INTERNAL_ERROR := -11
  const OPAL_EMPTY := -16

  const SUCCESS := 0
  const AUTH_FAIL := -1
  const PKCS7_FAIL := -2
  const ESL_FAIL := -3
  const CERT_FAIL := -4
  const ARG_PARSE_FAIL := -5
  const INVALID_VAR_NAME := -6
  const INVALID_FILE := -7
  const FILE_WRITE_FAIL := -8
  const INVALID_TIMESTAMP := -9
  const HASH_FAIL := -10
  const ALLOC_FAIL := -11
}
