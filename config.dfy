/** The two hard-coded constants at the top of server/routes.ts. */
module Config {

  /** `BASE_URL`: the listing site's root. */
  const BaseUrl: string := "https://moviesdrive.forum"

  /** `MDRIVE_PATTERN`: the host that extracted links must mention. */
  const MdrivePattern: string := "mdrive.today"
}
