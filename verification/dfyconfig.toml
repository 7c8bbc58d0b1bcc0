includes = ["**/*.dfy"]

[options]
verification-time-limit = 0
warn-contradictory-assumptions = true
