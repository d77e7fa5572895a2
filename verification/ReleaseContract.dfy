/** The numeric bounds of the release policy. */
module ReleaseContract {
  const MAX_ARCHIVE_MEMBERS: nat := 4_096
  const MAX_MEMBER_BYTES: nat := 16_777_216
  const MAX_TOTAL_BYTES: nat := 134_217_728
  const MAX_COMPRESSION_RATIO: nat := 200
  const MAX_NAME_CHARS: nat := 512
  const MAX_COMPONENT_BYTES: nat := 255
  const MAX_NAME_BYTES: nat := 2_048
  const MAX_ARTIFACT_BYTES: nat := 134_217_728
  const MAX_TAR_CONTAINER_BYTES: nat := 138_422_272
  const MAX_PAX_HEADER_BYTES: nat := 65_536
  const READ_CHUNK_BYTES: nat := 65_536

  /** The running budget over archive members (`_member_budget`, `_check_member_limits`). */
  predicate WithinBudget(count: nat, size: nat, total: nat) {
    count <= MAX_ARCHIVE_MEMBERS && size <= MAX_MEMBER_BYTES && total + size <= MAX_TOTAL_BYTES
  }
}
