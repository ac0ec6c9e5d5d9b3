/** The one piece of configuration the forwarding logic branches on
    (`src/config.rs`). */
module Config {

  /** `HAProxyVersion`: which PROXY protocol header a session writes. */
  datatype HAProxyVersion = V1 | V2
}
